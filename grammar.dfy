/**
 * The wire grammar the decoder of src/parser.rs accepts, as pure functions
 * of the remaining input. Each reader returns what it read and the input it
 * left, like the parser's `IResult`; the imperative parser in module Parser
 * is proved to compute exactly these functions.
 */
module Grammar {
  import opened Wrappers
  import opened Bytes
  import opened Errors
  import opened Tags
  import Mutf8
  import Layout
  import opened Seqs

  /** A value read, and the input that remains after it. */
  datatype Parsed<+T> = Parsed(value: T, rest: seq<byte>)

  type ParseResult<+T> = Result<Parsed<T>, Error>

  /** `acc` in front of the sequence `r` read, or `r`'s error. */
  function Prepend<T>(acc: seq<T>, r: ParseResult<seq<T>>): (p: ParseResult<seq<T>>)
    ensures p.Ok? <==> r.Ok?
    ensures p.Ok? ==> p.value == Parsed(acc + r.value.value, r.value.rest)
    ensures p.Err? ==> p.error == r.error
  {
    match r
    case Ok(v) => Ok(Parsed(acc + v.value, v.rest))
    case Err(e) => Err(e)
  }

  /**
   * nom's `be_uN` / `le_uN` on complete input: fails with Eof when fewer than
   * `w` bytes remain; otherwise reads a number below 256^w from the first `w`
   * bytes (ReadEncodes: they are that number's encoding).
   */
  function ReadUnsigned(i: seq<byte>, w: nat, o: ByteOrder): (r: ParseResult<int>)
    ensures r.Err? <==> |i| < w
    ensures r.Err? ==> r.error == ParseError(Eof)
    ensures r.Ok? ==> 0 <= r.value.value < Pow256(w) && r.value.rest == i[w..]
  {
    if |i| < w then Err(ParseError(Eof))
    else Ok(Parsed(DecodeUnsigned(o, i[..w]), i[w..]))
  }

  /** nom's `be_iN` / `le_iN` on complete input: as ReadUnsigned, reading two's complement. */
  function ReadSigned(i: seq<byte>, w: nat, o: ByteOrder): (r: ParseResult<int>)
    requires w > 0
    ensures r.Err? <==> |i| < w
    ensures r.Err? ==> r.error == ParseError(Eof)
    ensures r.Ok? ==> -Half(w) <= r.value.value < Half(w) && r.value.rest == i[w..]
  {
    if |i| < w then Err(ParseError(Eof))
    else Ok(Parsed(DecodeSigned(o, i[..w]), i[w..]))
  }

  /** The `w` bytes a number reader consumes are the encoding of the number it read. */
  lemma ReadEncodes(i: seq<byte>, w: nat, o: ByteOrder)
    ensures ReadUnsigned(i, w, o).Ok? ==> Encode(o, w, ReadUnsigned(i, w, o).value.value) == i[..w]
    ensures w > 0 && ReadSigned(i, w, o).Ok? ==> Encode(o, w, ReadSigned(i, w, o).value.value) == i[..w]
  {
    if |i| >= w {
      EncodeDecoded(o, i[..w]);
    }
  }

  /**
   * `id` (src/parser.rs:36-48): one byte that must be a type-id 1..12, or 0
   * as well when `allowEnd` holds; anything else, or no byte, is OneOf.
   */
  function ReadId(i: seq<byte>, allowEnd: bool): (r: ParseResult<byte>)
    ensures r.Ok? <==> |i| > 0 && (1 <= i[0] <= 12 || (allowEnd && i[0] == 0))
    ensures r.Ok? ==> r.value == Parsed(i[0], i[1..])
    ensures r.Err? ==> r.error == ParseError(OneOf)
  {
    if |i| > 0 && (1 <= i[0] <= 12 || (allowEnd && i[0] == 0)) then Ok(Parsed(i[0], i[1..]))
    else Err(ParseError(OneOf))
  }

  /**
   * `name` (src/parser.rs:12-34): a 16-bit length, then exactly that many
   * bytes, which must be valid modified UTF-8. Too few bytes is Eof, invalid
   * text is Fail. On success the input consumed is exactly the length-prefixed
   * text that was read.
   */
  function ReadText(i: seq<byte>, o: ByteOrder): (r: ParseResult<seq<byte>>)
    ensures |i| < 2 ==> r == Err(ParseError(Eof))
    ensures |i| >= 2 && |i| < 2 + DecodeUnsigned(o, i[..2]) ==> r == Err(ParseError(Eof))
    ensures |i| >= 2 && |i| >= 2 + DecodeUnsigned(o, i[..2]) ==>
      var n := DecodeUnsigned(o, i[..2]);
      && (r.Ok? <==> Mutf8.Valid(i[2..2 + n]))
      && (r.Ok? ==> r.value == Parsed(i[2..2 + n], i[2 + n..]))
      && (r.Err? ==> r.error == ParseError(Fail))
    ensures r.Err? ==> r.error in {ParseError(Eof), ParseError(Fail)}
    ensures r.Ok? ==> Mutf8.Writable(r.value.value) && |r.value.rest| <= |i| - 2
  {
    var len :- ReadUnsigned(i, 2, o);
    Pow256Values();
    if |len.rest| < len.value then Err(ParseError(Eof))
    else
      var text := len.rest[..len.value];
      assert text == i[2..2 + len.value] && len.rest[len.value..] == i[2 + len.value..];
      if !Mutf8.Valid(text) then Err(ParseError(Fail))
      else Ok(Parsed(text, len.rest[len.value..]))
  }

  /** On success the input ReadText consumed is exactly the length-prefixed text it read. */
  lemma ReadTextConsumed(i: seq<byte>, o: ByteOrder)
    ensures var r := ReadText(i, o);
      r.Ok? ==> i == Layout.LengthPrefixed(o, r.value.value) + r.value.rest
  {
    var r := ReadText(i, o);
    if r.Ok? {
      ReadEncodes(i, 2, o);
      var text := r.value.value;
      assert i == i[..2] + text + r.value.rest;
    }
  }

  /**
   * `string_payload` as written (src/parser.rs:190-200): the 16-bit length,
   * then `take_while_m_n(0, len, ..)`, which takes at most `len` bytes and
   * does not fail when fewer remain.
   */
  function StringPayloadAsWritten(i: seq<byte>, o: ByteOrder): (r: ParseResult<seq<byte>>)
    ensures |i| < 2 ==> r == Err(ParseError(Eof))
    ensures |i| >= 2 ==>
      var taken := if DecodeUnsigned(o, i[..2]) <= |i| - 2 then DecodeUnsigned(o, i[..2]) else |i| - 2;
      && (r.Ok? <==> Mutf8.Valid(i[2..2 + taken]))
      && (r.Ok? ==> r.value == Parsed(i[2..2 + taken], i[2 + taken..]))
  {
    var len :- ReadUnsigned(i, 2, o);
    var taken := if len.value <= |len.rest| then len.value else |len.rest|;
    var text := len.rest[..taken];
    assert len.rest == i[2..] && text == i[2..2 + taken] && len.rest[taken..] == i[2 + taken..];
    if Mutf8.Valid(text) then Ok(Parsed(text, len.rest[taken..])) else Err(ParseError(Fail))
  }

  /**
   * The as-written string reader and ReadText agree whenever the input holds
   * all the bytes the length announces; they part only on short input.
   */
  lemma StringPayloadAgrees(i: seq<byte>, o: ByteOrder)
    requires |i| >= 2 && |i| >= 2 + DecodeUnsigned(o, i[..2])
    ensures StringPayloadAsWritten(i, o) == ReadText(i, o)
  {
  }

  /**
   * A string that announces 5 bytes but carries 4: the as-written reader
   * returns the 4 as the whole string, ReadText reports the missing byte.
   */
  lemma TruncatedString()
    ensures StringPayloadAsWritten([0x00, 0x05, 0x68, 0x65, 0x6C, 0x6C], BigEndian)
      == Ok(Parsed([0x68, 0x65, 0x6C, 0x6C], []))
    ensures ReadText([0x00, 0x05, 0x68, 0x65, 0x6C, 0x6C], BigEndian) == Err(ParseError(Eof))
  {
    var i: seq<byte> := [0x00, 0x05, 0x68, 0x65, 0x6C, 0x6C];
    assert DecodeUnsigned(BigEndian, i[..2]) == 5 by {
      assert i[..2] == [0x00, 0x05];
      assert [0x00, 0x05][..1] == [0x00];
    }
    assert i[2..6] == [0x68, 0x65, 0x6C, 0x6C] && i[6..] == [];
    Mutf8.AsciiValid([0x68, 0x65, 0x6C, 0x6C]);
  }

  /**
   * The reader the string payloads use (type-id 8 in Payload). `AsWritten`
   * is `string_payload` as the code has it (src/parser.rs:190-200), the
   * reader of the decoder as written; `Corrected` takes exactly the announced
   * bytes with `take(len)`, as `name` does. They differ only on a string cut
   * short (StringPayloadAgrees, TruncatedString).
   */
  datatype StringReader = AsWritten | Corrected

  /** A string payload read by the reader `sr`: valid text, length-prefixed, at most the announced bytes. */
  function StringPayload(i: seq<byte>, o: ByteOrder, sr: StringReader): (r: ParseResult<seq<byte>>)
    ensures |i| < 2 ==> r == Err(ParseError(Eof))
    ensures r.Err? ==> r.error in {ParseError(Eof), ParseError(Fail)}
    ensures r.Ok? ==> Mutf8.Writable(r.value.value) && |r.value.rest| <= |i| - 2
    ensures r.Ok? ==> |r.value.value| <= DecodeUnsigned(o, i[..2]) && i[2..] == r.value.value + r.value.rest
  {
    Pow256Values();
    if sr == AsWritten then StringPayloadAsWritten(i, o) else ReadText(i, o)
  }

  /** `n` array elements of width `w`, in the counted loop of the array readers. */
  function ArrayElements(i: seq<byte>, w: nat, n: nat, o: ByteOrder): (r: ParseResult<seq<int>>)
    requires w > 0
    ensures r.Err? ==> r.error == ParseError(Eof)
    ensures r.Ok? ==> |r.value.value| == n && |r.value.rest| <= |i|
    ensures r.Ok? ==> forall k :: 0 <= k < n ==> -Half(w) <= r.value.value[k] < Half(w)
    decreases n
  {
    if n == 0 then Ok(Parsed([], i))
    else
      var head :- ReadSigned(i, w, o);
      var tail :- ArrayElements(head.rest, w, n - 1, o);
      var vs := [head.value] + tail.value;
      assert forall k :: 1 <= k < n ==> vs[k] == tail.value[k - 1];
      Ok(Parsed(vs, tail.rest))
  }

  /** The elements read are in range for their width, and the input consumed is their encoding. */
  lemma {:induction false} ArrayElementsRead(i: seq<byte>, w: nat, n: nat, o: ByteOrder)
    requires w > 0
    ensures var r := ArrayElements(i, w, n, o);
      r.Ok? ==> i == Layout.Elements(o, w, r.value.value) + r.value.rest
    decreases n
  {
    if n > 0 {
      var head := ReadSigned(i, w, o);
      if head.Ok? {
        var v, after := head.value.value, head.value.rest;
        var tail := ArrayElements(after, w, n - 1, o);
        if tail.Ok? {
          var vs, rest := tail.value.value, tail.value.rest;
          ArrayElementsRead(after, w, n - 1, o);
          var e := Layout.Elements(o, w, vs);
          assert after == e + rest;
          ArrayElementsStep(i, w, n, o);
          assert ArrayElements(i, w, n, o).value == Parsed([v] + vs, rest);
          Layout.ElementsCons(o, w, v, vs);
          var x := Encode(o, w, v);
          ReadEncodes(i, w, o);
          Split(i, w);
          assert i == x + after;
          Assoc(x, e, rest);
        }
      }
    }
  }

  /** Reading `n` elements of width `w` fails exactly when fewer than `n * w` bytes remain. */
  lemma {:induction false} ArrayElementsSpan(i: seq<byte>, w: nat, n: nat, o: ByteOrder)
    requires w > 0
    ensures ArrayElements(i, w, n, o).Ok? <==> Span(n, w) <= |i|
    ensures ArrayElements(i, w, n, o).Ok? ==> ArrayElements(i, w, n, o).value.rest == i[Span(n, w)..]
    decreases n
  {
    var r := ArrayElements(i, w, n, o);
    if r.Ok? {
      ArrayElementsRead(i, w, n, o);
      Layout.ElementsLength(o, w, r.value.value);
      assert i[|Layout.Elements(o, w, r.value.value)|..] == r.value.rest;
    } else if n > 0 && |i| >= w {
      ArrayElementsStep(i, w, n, o);
      ArrayElementsSpan(i[w..], w, n - 1, o);
    }
  }

  /**
   * `byte_array_payload`, `int_array_payload`, `long_array_payload`
   * (src/parser.rs:162-178, 399-443): a signed 32-bit count, then that many
   * elements of width `w`; a negative count reads no element.
   */
  function ArrayPayload(i: seq<byte>, w: nat, o: ByteOrder): (r: ParseResult<seq<int>>)
    requires w > 0
    ensures |i| < 4 ==> r == Err(ParseError(Eof))
    ensures r.Err? ==> r.error == ParseError(Eof)
    ensures r.Ok? ==> |i| >= 4 && |r.value.rest| <= |i| - 4
    ensures r.Ok? ==>
      |r.value.value| == (if DecodeSigned(o, i[..4]) < 0 then 0 else DecodeSigned(o, i[..4]))
    ensures r.Ok? ==> forall k :: 0 <= k < |r.value.value| ==> -Half(w) <= r.value.value[k] < Half(w)
  {
    var count :- ReadSigned(i, 4, o);
    EncodeDecoded(o, i[..4]);
    ArrayElements(count.rest, w, if count.value < 0 then 0 else count.value, o)
  }

  /** The input an array payload consumes is its count followed by the encoding of the elements read. */
  lemma ArrayPayloadRead(i: seq<byte>, w: nat, o: ByteOrder)
    requires w > 0
    ensures var r := ArrayPayload(i, w, o);
      r.Ok? ==> i == Encode(o, 4, DecodeSigned(o, i[..4])) + Layout.Elements(o, w, r.value.value) + r.value.rest
  {
    if |i| >= 4 {
      var count := ReadSigned(i, 4, o).value;
      ArrayPayloadHeader(i, w, o, count);
      var n := if count.value < 0 then 0 else count.value;
      ArrayElementsRead(count.rest, w, n, o);
      ReadEncodes(i, 4, o);
      assert i == i[..4] + count.rest;
    }
  }

  /**
   * An array payload is read exactly when the count and that many elements
   * are all present, a negative count standing for none.
   */
  lemma ArrayPayloadSpan(i: seq<byte>, w: nat, o: ByteOrder)
    requires w > 0 && |i| >= 4
    ensures var count := DecodeSigned(o, i[..4]);
      var n := if count < 0 then 0 else count;
      && (ArrayPayload(i, w, o).Ok? <==> 4 + Span(n, w) <= |i|)
      && (ArrayPayload(i, w, o).Ok? ==> ArrayPayload(i, w, o).value.rest == i[4 + Span(n, w)..])
  {
    var count := DecodeSigned(o, i[..4]);
    var n := if count < 0 then 0 else count;
    ArrayElementsSpan(i[4..], w, n, o);
  }

  /**
   * The payload of a tag of type `id`, wrapped as a tag with name `name`:
   * the dispatch on the type-id in `list_payload`, `compound_payload` and
   * `nbt` (src/parser.rs:224-286, 321-383, 450-464). Every payload consumes
   * at least one byte.
   */
  function Payload(id: byte, name: Name, i: seq<byte>, o: ByteOrder, sr: StringReader): (r: ParseResult<Tag>)
    requires 1 <= id <= 12
    ensures r.Ok? ==> Id(r.value.value) == id && r.value.value.name == name
    ensures r.Ok? ==> |r.value.rest| < |i|
    decreases |i|, 2
  {
    Pow256Values();
    if id == 1 then
      var v :- ReadSigned(i, 1, o); Ok(Parsed(Byte(name, v.value), v.rest))
    else if id == 2 then
      var v :- ReadSigned(i, 2, o); Ok(Parsed(Short(name, v.value), v.rest))
    else if id == 3 then
      var v :- ReadSigned(i, 4, o); Ok(Parsed(Int(name, v.value), v.rest))
    else if id == 4 then
      var v :- ReadSigned(i, 8, o); Ok(Parsed(Long(name, v.value), v.rest))
    else if id == 5 then
      var v :- ReadUnsigned(i, 4, o); Ok(Parsed(Float(name, v.value), v.rest))
    else if id == 6 then
      var v :- ReadUnsigned(i, 8, o); Ok(Parsed(Double(name, v.value), v.rest))
    else if id == 7 then
      var v :- ArrayPayload(i, 1, o); Ok(Parsed(ByteArray(name, v.value), v.rest))
    else if id == 8 then
      var v :- StringPayload(i, o, sr); Ok(Parsed(String(name, v.value), v.rest))
    else if id == 9 then
      var v :- ListPayload(i, o, sr); Ok(Parsed(List(name, v.value), v.rest))
    else if id == 10 then
      var v :- CompoundPayload(i, [], o, sr); Ok(Parsed(Compound(name, v.value), v.rest))
    else if id == 11 then
      var v :- ArrayPayload(i, 4, o); Ok(Parsed(IntArray(name, v.value), v.rest))
    else
      var v :- ArrayPayload(i, 8, o); Ok(Parsed(LongArray(name, v.value), v.rest))
  }

  /**
   * `list_payload` (src/parser.rs:212-290): an element type-id (0 is
   * refused), a signed 32-bit count, then that many bare payloads of that
   * type (ListPayloadShape: every element is unnamed and of the header's
   * variant).
   */
  function ListPayload(i: seq<byte>, o: ByteOrder, sr: StringReader): (r: ParseResult<seq<Tag>>)
    ensures |i| == 0 || i[0] == 0 || i[0] > 12 ==> r == Err(ParseError(OneOf))
    ensures r.Ok? ==> |r.value.rest| < |i|
    ensures r.Ok? ==> 1 <= i[0] <= 12 && |i| >= 5
    ensures r.Ok? ==>
      |r.value.value| == (if DecodeSigned(o, i[1..5]) < 0 then 0 else DecodeSigned(o, i[1..5]))
    decreases |i|, 1
  {
    var id :- ReadId(i, false);
    var count :- ReadSigned(id.rest, 4, o);
    assert id.rest[..4] == i[1..5];
    ListElements(id.value, count.value, count.rest, o, sr)
  }

  /** The counted loop of `list_payload`: `n` payloads of type `id`, unnamed; none when `n <= 0`. */
  function ListElements(id: byte, n: int, i: seq<byte>, o: ByteOrder, sr: StringReader): (r: ParseResult<seq<Tag>>)
    requires 1 <= id <= 12
    ensures r.Ok? ==> |r.value.rest| <= |i|
    ensures r.Ok? ==> |r.value.value| == if n < 0 then 0 else n
    decreases |i|, 3
  {
    if n <= 0 then Ok(Parsed([], i))
    else
      var head :- Payload(id, None, i, o, sr);
      Prepend([head.value], ListElements(id, n - 1, head.rest, o, sr))
  }

  /**
   * The loop of `compound_payload` (src/parser.rs:302-387), with the names
   * `seen` so far: a type-id 0 ends the compound without a name; any other
   * type-id is followed by a name, which must not repeat an earlier sibling's,
   * and the payload (CompoundShape: every child returned is named, and the
   * names are distinct and new).
   */
  function CompoundPayload(i: seq<byte>, seen: seq<seq<byte>>, o: ByteOrder, sr: StringReader): (r: ParseResult<seq<Tag>>)
    ensures |i| > 0 && i[0] == 0 ==> r == Ok(Parsed([], i[1..]))
    ensures |i| == 0 || i[0] > 12 ==> r == Err(ParseError(OneOf))
    ensures |i| > 0 && 1 <= i[0] <= 12 && ReadText(i[1..], o).Ok? && ReadText(i[1..], o).value.value in seen
      ==> r == Err(ParseError(Fail))
    ensures r.Ok? ==> |r.value.rest| < |i|
    decreases |i|, 1
  {
    var id :- ReadId(i, true);
    if id.value == 0 then Ok(Parsed([], id.rest))
    else
      var name :- ReadText(id.rest, o);
      if name.value in seen then Err(ParseError(Fail))
      else
        var child :- Payload(id.value, Some(name.value), name.rest, o, sr);
        Prepend([child.value], CompoundPayload(child.rest, seen + [name.value], o, sr))
  }

  /** One turn of the array loop: the first element, then the others. */
  lemma ArrayElementsStep(cur: seq<byte>, w: nat, m: nat, o: ByteOrder)
    requires w > 0 && m > 0
    ensures var v := ReadSigned(cur, w, o);
      && (v.Err? ==> ArrayElements(cur, w, m, o) == Err(v.error))
      && (v.Ok? ==> ArrayElements(cur, w, m, o)
                    == Prepend([v.value.value], ArrayElements(v.value.rest, w, m - 1, o)))
  {
  }

  /** After its count, the array reader is the counted loop, a negative count counting as none. */
  lemma ArrayPayloadHeader(i: seq<byte>, w: nat, o: ByteOrder, length: Parsed<int>)
    requires w > 0
    requires ReadSigned(i, 4, o) == Ok(length)
    ensures ArrayPayload(i, w, o)
      == ArrayElements(length.rest, w, if length.value < 0 then 0 else length.value, o)
  {
  }

  /** After its type-id and count, the list reader is the counted loop, a negative count counting as none. */
  lemma ListPayloadHeader(i: seq<byte>, o: ByteOrder, id: Parsed<byte>, length: Parsed<int>, sr: StringReader)
    requires ReadId(i, false) == Ok(id)
    requires ReadSigned(id.rest, 4, o) == Ok(length)
    ensures 1 <= id.value <= 12
    ensures ListPayload(i, o, sr)
      == ListElements(id.value, if length.value < 0 then 0 else length.value, length.rest, o, sr)
  {
  }

  /** One turn of the list loop: the first element, then the others. */
  lemma ListElementsStep(id: byte, m: nat, cur: seq<byte>, o: ByteOrder, sr: StringReader)
    requires 1 <= id <= 12 && m > 0
    ensures var e := Payload(id, None, cur, o, sr);
      && (e.Err? ==> ListElements(id, m, cur, o, sr) == Err(e.error))
      && (e.Ok? ==> ListElements(id, m, cur, o, sr)
                    == Prepend([e.value.value], ListElements(id, m - 1, e.value.rest, o, sr)))
  {
  }

  /** The elements of a list read are unnamed and all of the type the list header names. */
  lemma {:induction false} ListElementsShape(id: byte, n: int, i: seq<byte>, o: ByteOrder, sr: StringReader)
    requires 1 <= id <= 12
    ensures var r := ListElements(id, n, i, o, sr);
      r.Ok? ==> Uniform(r.value.value, id)
    decreases if n < 0 then 0 else n
  {
    if n > 0 {
      var head := Payload(id, None, i, o, sr);
      if head.Ok? {
        var tail := ListElements(id, n - 1, head.value.rest, o, sr);
        assert ListElements(id, n, i, o, sr) == Prepend([head.value.value], tail);
        if tail.Ok? {
          ListElementsShape(id, n - 1, head.value.rest, o, sr);
          UniformCons(head.value.value, tail.value.value, id);
        }
      }
    }
  }

  /** Every tag of `ts` is unnamed and of variant `id`. */
  predicate Uniform(ts: seq<Tag>, id: byte) {
    forall k :: 0 <= k < |ts| ==> ts[k].name.None? && Id(ts[k]) == id
  }

  lemma UniformCons(t: Tag, ts: seq<Tag>, id: byte)
    requires t.name.None? && Id(t) == id && Uniform(ts, id)
    ensures Uniform([t] + ts, id)
  {
    assert forall k :: 1 <= k < |[t] + ts| ==> ([t] + ts)[k] == ts[k - 1];
  }

  /** A list read is homogeneous: its elements are unnamed and of the variant its header names. */
  lemma ListPayloadShape(i: seq<byte>, o: ByteOrder, sr: StringReader)
    ensures var r := ListPayload(i, o, sr);
      r.Ok? ==> Uniform(r.value.value, i[0])
  {
    if |i| >= 5 && 1 <= i[0] <= 12 {
      var count := ReadSigned(i[1..], 4, o);
      if count.Ok? {
        ListElementsShape(i[0], count.value.value, count.value.rest, o, sr);
      }
    }
  }

  /** Every tag of `ts` is named, no name is in `seen`, and no two names are equal. */
  predicate Fresh(ts: seq<Tag>, seen: seq<seq<byte>>) {
    && (forall k :: 0 <= k < |ts| ==> ts[k].name.Some? && ts[k].name.value !in seen)
    && (forall j, k :: 0 <= j < k < |ts| ==> ts[j].name != ts[k].name)
  }

  lemma FreshCons(t: Tag, ts: seq<Tag>, n: seq<byte>, seen: seq<seq<byte>>)
    requires t.name == Some(n) && n !in seen && Fresh(ts, seen + [n])
    ensures Fresh([t] + ts, seen)
  {
    var cs := [t] + ts;
    assert forall k :: 1 <= k < |cs| ==> cs[k] == ts[k - 1];
    assert forall k :: 1 <= k < |cs| ==> cs[k].name.value !in seen + [n];
  }

  /**
   * The children of a compound read are named, their names are distinct and
   * none of them is among the names `seen` before.
   */
  lemma {:induction false} CompoundShape(i: seq<byte>, seen: seq<seq<byte>>, o: ByteOrder, sr: StringReader)
    ensures var r := CompoundPayload(i, seen, o, sr);
      r.Ok? ==> Fresh(r.value.value, seen)
    decreases |i|
  {
    if |i| > 0 && 1 <= i[0] <= 12 {
      var name := ReadText(i[1..], o);
      if name.Ok? && name.value.value !in seen {
        var child := Payload(i[0], Some(name.value.value), name.value.rest, o, sr);
        if child.Ok? {
          var seen' := seen + [name.value.value];
          var tail := CompoundPayload(child.value.rest, seen', o, sr);
          assert CompoundPayload(i, seen, o, sr) == Prepend([child.value.value], tail);
          if tail.Ok? {
            CompoundShape(child.value.rest, seen', o, sr);
            FreshCons(child.value.value, tail.value.value, name.value.value, seen);
          }
        }
      }
    }
  }

  /**
   * `nbt` (src/parser.rs:445-468): a root type-id (0 is refused), its name,
   * its payload, and then the input must be exhausted. The root is always
   * named.
   */
  function Nbt(i: seq<byte>, o: ByteOrder, sr: StringReader): (r: ParseResult<Tag>)
    ensures |i| == 0 || i[0] == 0 || i[0] > 12 ==> r == Err(ParseError(OneOf))
    ensures r.Ok? ==> r.value.rest == [] && r.value.value.name.Some?
    ensures r.Ok? ==> Id(r.value.value) == i[0]
  {
    var id :- ReadId(i, false);
    var name :- ReadText(id.rest, o);
    var tag :- Payload(id.value, Some(name.value), name.rest, o, sr);
    if tag.rest != [] then Err(ParseError(Eof)) else Ok(tag)
  }
}
