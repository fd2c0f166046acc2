/**
 * The decoder of src/parser.rs, step by step: each method walks the input the
 * way the parser does, threading the remaining input `cur` through its
 * readers, and is proved to return exactly what the grammar in module
 * Grammar prescribes with the string reader as written
 * (`Grammar.AsWritten`, `string_payload` at src/parser.rs:190-200).
 */
module Parser {
  import opened Wrappers
  import opened Bytes
  import opened Errors
  import opened Tags
  import Mutf8
  import Grammar

  type ParseResult<+T> = Grammar.ParseResult<T>

  /**
   * `id` (src/parser.rs:36-48): builds the list of acceptable type-ids (0
   * first when an end tag is allowed, then 1..12) and accepts the first
   * byte only when it is one of them.
   */
  method Id(i: seq<byte>, allowEnd: bool) returns (r: ParseResult<byte>)
    ensures r == Grammar.ReadId(i, allowEnd)
  {
    var ids: seq<byte> := [];
    if allowEnd {
      ids := ids + [0];
    }
    for b := 1 to 13
      invariant forall c: byte :: c in ids <==> (allowEnd && c == 0) || 1 <= c < b
    {
      ids := ids + [b];
    }
    if |i| > 0 && i[0] in ids {
      r := Ok(Grammar.Parsed(i[0], i[1..]));
    } else {
      r := Err(ParseError(OneOf));
    }
  }

  /**
   * `byte_array_payload`, `int_array_payload` and `long_array_payload`
   * (src/parser.rs:162-178, 399-443), which differ only in the element width
   * `w`: a signed 32-bit count, then the counted loop of ArrayElements.
   */
  method ArrayPayload(i: seq<byte>, w: nat, o: ByteOrder) returns (r: ParseResult<seq<int>>)
    requires w > 0
    ensures r == Grammar.ArrayPayload(i, w, o)
  {
    var length := Grammar.ReadSigned(i, 4, o);
    if length.Err? {
      return Err(length.error);
    }
    Grammar.ArrayPayloadHeader(i, w, o, length.value);
    r := ArrayElements(length.value.rest, w, if length.value.value < 0 then 0 else length.value.value, o);
  }

  /** The `for _ in 0..length` loop of the array readers, counting down the elements left: one element of width `w` at a time. */
  method ArrayElements(i: seq<byte>, w: nat, n: nat, o: ByteOrder) returns (r: ParseResult<seq<int>>)
    requires w > 0
    ensures r == Grammar.ArrayElements(i, w, n, o)
  {
    var cur := i;
    var values: seq<int> := [];
    ghost var spec := Grammar.ArrayElements(i, w, n, o);
    PrependNothing(spec);
    var left := n;
    while left > 0
      invariant spec == Grammar.Prepend(values, Grammar.ArrayElements(cur, w, left, o))
    {
      ArrayLoopFails(spec, values, cur, w, left, o);
      var v :- Grammar.ReadSigned(cur, w, o);
      ArrayLoopNext(spec, values, cur, w, left, v, o);
      values := values + [v.value];
      cur := v.rest;
      left := left - 1;
    }
    LoopDone(spec, values, cur);
    r := Ok(Grammar.Parsed(values, cur));
  }

  /**
   * The payload of a tag of type `id`, named `name`: the twelve arms of the
   * `match tag_id` in `list_payload`, `compound_payload` and, through the
   * per-variant readers `byte` .. `long_array`, in `nbt`
   * (src/parser.rs:50-160, 180-210, 224-286, 321-383, 385-443). A string
   * payload is read as written, with `take_while_m_n`.
   */
  method Payload(id: byte, name: Name, i: seq<byte>, o: ByteOrder) returns (r: ParseResult<Tag>)
    requires 1 <= id <= 12
    ensures r == Grammar.Payload(id, name, i, o, Grammar.AsWritten)
    decreases |i|, 2
  {
    Pow256Values();
    if id == 1 {
      var v :- Grammar.ReadSigned(i, 1, o);
      r := Ok(Grammar.Parsed(Byte(name, v.value), v.rest));
    } else if id == 2 {
      var v :- Grammar.ReadSigned(i, 2, o);
      r := Ok(Grammar.Parsed(Short(name, v.value), v.rest));
    } else if id == 3 {
      var v :- Grammar.ReadSigned(i, 4, o);
      r := Ok(Grammar.Parsed(Int(name, v.value), v.rest));
    } else if id == 4 {
      var v :- Grammar.ReadSigned(i, 8, o);
      r := Ok(Grammar.Parsed(Long(name, v.value), v.rest));
    } else if id == 5 {
      var v :- Grammar.ReadUnsigned(i, 4, o);
      r := Ok(Grammar.Parsed(Float(name, v.value), v.rest));
    } else if id == 6 {
      var v :- Grammar.ReadUnsigned(i, 8, o);
      r := Ok(Grammar.Parsed(Double(name, v.value), v.rest));
    } else if id == 7 {
      var v :- ArrayPayload(i, 1, o);
      r := Ok(Grammar.Parsed(ByteArray(name, v.value), v.rest));
    } else if id == 8 {
      var v :- Grammar.StringPayloadAsWritten(i, o);
      r := Ok(Grammar.Parsed(String(name, v.value), v.rest));
    } else if id == 9 {
      var v :- ListPayload(i, o);
      r := Ok(Grammar.Parsed(List(name, v.value), v.rest));
    } else if id == 10 {
      var v :- CompoundPayload(i, o);
      r := Ok(Grammar.Parsed(Compound(name, v.value), v.rest));
    } else if id == 11 {
      var v :- ArrayPayload(i, 4, o);
      r := Ok(Grammar.Parsed(IntArray(name, v.value), v.rest));
    } else {
      var v :- ArrayPayload(i, 8, o);
      r := Ok(Grammar.Parsed(LongArray(name, v.value), v.rest));
    }
  }

  /**
   * `list_payload` (src/parser.rs:212-290): the element type-id, the signed
   * 32-bit count, then the counted loop of ListElements.
   */
  method ListPayload(i: seq<byte>, o: ByteOrder) returns (r: ParseResult<seq<Tag>>)
    ensures r == Grammar.ListPayload(i, o, Grammar.AsWritten)
    decreases |i|, 1
  {
    var id :- Id(i, false);
    var length :- Grammar.ReadSigned(id.rest, 4, o);
    Grammar.ListPayloadHeader(i, o, id, length, Grammar.AsWritten);
    r := ListElements(id.value, if length.value < 0 then 0 else length.value, length.rest, o);
  }

  /** The `for _ in 0..length` loop of `list_payload`, counting down the elements left: one unnamed payload of type `id` at a time. */
  method ListElements(id: byte, n: nat, i: seq<byte>, o: ByteOrder) returns (r: ParseResult<seq<Tag>>)
    requires 1 <= id <= 12
    ensures r == Grammar.ListElements(id, n, i, o, Grammar.AsWritten)
    decreases |i|, 3
  {
    var cur := i;
    var tags: seq<Tag> := [];
    ghost var spec := Grammar.ListElements(id, n, i, o, Grammar.AsWritten);
    PrependNothing(spec);
    var left := n;
    while left > 0
      invariant |cur| <= |i|
      invariant spec == Grammar.Prepend(tags, Grammar.ListElements(id, left, cur, o, Grammar.AsWritten))
    {
      ListLoopFails(spec, tags, id, left, cur, o);
      var element :- Payload(id, None, cur, o);
      ListLoopNext(spec, tags, id, left, cur, element, o);
      tags := tags + [element.value];
      cur := element.rest;
      left := left - 1;
    }
    LoopDone(spec, tags, cur);
    r := Ok(Grammar.Parsed(tags, cur));
  }

  /**
   * `compound_payload` (src/parser.rs:302-387): `loop` reading a type-id,
   * leaving at the end tag 0; otherwise the child's name, refused with Fail
   * when `names` already holds it, then its payload.
   */
  method CompoundPayload(i: seq<byte>, o: ByteOrder) returns (r: ParseResult<seq<Tag>>)
    ensures r == Grammar.CompoundPayload(i, [], o, Grammar.AsWritten)
    decreases |i|, 1
  {
    var tags: seq<Tag> := [];
    var names: seq<seq<byte>> := [];
    var cur := i;
    PrependNothing(Grammar.CompoundPayload(i, [], o, Grammar.AsWritten));
    while true
      invariant |cur| <= |i|
      invariant Grammar.CompoundPayload(i, [], o, Grammar.AsWritten)
        == Grammar.Prepend(tags, Grammar.CompoundPayload(cur, names, o, Grammar.AsWritten))
      decreases |cur|
    {
      var id :- Id(cur, true);
      if id.value == 0 {
        cur := id.rest;
        break;
      }
      var name :- Grammar.ReadText(id.rest, o);
      if name.value in names {
        return Err(ParseError(Fail));
      }
      names := names + [name.value];
      var child :- Payload(id.value, Some(name.value), name.rest, o);
      PrependTwice(tags, child.value, Grammar.CompoundPayload(child.rest, names, o, Grammar.AsWritten));
      tags := tags + [child.value];
      cur := child.rest;
    }
    assert tags + [] == tags;
    r := Ok(Grammar.Parsed(tags, cur));
  }

  /**
   * `nbt` (src/parser.rs:445-468): the root type-id (no end tag), the name,
   * the payload, and `eof`. The entry point of the imperative decoder: it
   * runs the payload method above, with its loops, on the root.
   */
  method Nbt(i: seq<byte>, o: ByteOrder) returns (r: ParseResult<Tag>)
    ensures r == Grammar.Nbt(i, o, Grammar.AsWritten)
  {
    var id :- Id(i, false);
    var name :- Grammar.ReadText(id.rest, o);
    var tag :- Payload(id.value, Some(name.value), name.rest, o);
    if tag.rest != [] {
      return Err(ParseError(Eof));
    }
    r := Ok(tag);
  }

  /** A turn of the array loop whose element is missing: the loop fails with it. */
  lemma ArrayLoopFails(spec: ParseResult<seq<int>>, values: seq<int>, cur: seq<byte>, w: nat, m: nat, o: ByteOrder)
    requires w > 0 && m > 0
    requires spec == Grammar.Prepend(values, Grammar.ArrayElements(cur, w, m, o))
    ensures Grammar.ReadSigned(cur, w, o).Err? ==> spec == Err(Grammar.ReadSigned(cur, w, o).error)
  {
    Grammar.ArrayElementsStep(cur, w, m, o);
  }

  /** A turn of the array loop whose element is read: the loop goes on after it. */
  lemma ArrayLoopNext(spec: ParseResult<seq<int>>, values: seq<int>, cur: seq<byte>, w: nat, m: nat,
                      v: Grammar.Parsed<int>, o: ByteOrder)
    requires w > 0 && m > 0
    requires spec == Grammar.Prepend(values, Grammar.ArrayElements(cur, w, m, o))
    requires Grammar.ReadSigned(cur, w, o) == Ok(v)
    ensures spec == Grammar.Prepend(values + [v.value], Grammar.ArrayElements(v.rest, w, m - 1, o))
  {
    Grammar.ArrayElementsStep(cur, w, m, o);
    PrependTwice(values, v.value, Grammar.ArrayElements(v.rest, w, m - 1, o));
  }

  /** A turn of the list loop whose element fails: the loop fails with it. */
  lemma ListLoopFails(spec: ParseResult<seq<Tag>>, tags: seq<Tag>, id: byte, m: nat, cur: seq<byte>, o: ByteOrder)
    requires 1 <= id <= 12 && m > 0
    requires spec == Grammar.Prepend(tags, Grammar.ListElements(id, m, cur, o, Grammar.AsWritten))
    ensures Grammar.Payload(id, None, cur, o, Grammar.AsWritten).Err? ==> spec == Err(Grammar.Payload(id, None, cur, o, Grammar.AsWritten).error)
  {
    Grammar.ListElementsStep(id, m, cur, o, Grammar.AsWritten);
  }

  /** A turn of the list loop whose element is read: the loop goes on after it. */
  lemma ListLoopNext(spec: ParseResult<seq<Tag>>, tags: seq<Tag>, id: byte, m: nat, cur: seq<byte>,
                     element: Grammar.Parsed<Tag>, o: ByteOrder)
    requires 1 <= id <= 12 && m > 0
    requires spec == Grammar.Prepend(tags, Grammar.ListElements(id, m, cur, o, Grammar.AsWritten))
    requires Grammar.Payload(id, None, cur, o, Grammar.AsWritten) == Ok(element)
    ensures spec == Grammar.Prepend(tags + [element.value], Grammar.ListElements(id, m - 1, element.rest, o, Grammar.AsWritten))
  {
    Grammar.ListElementsStep(id, m, cur, o, Grammar.AsWritten);
    PrependTwice(tags, element.value, Grammar.ListElements(id, m - 1, element.rest, o, Grammar.AsWritten));
  }

  /** A counted loop that has run its course: what was read is the result. */
  lemma LoopDone<T>(spec: ParseResult<seq<T>>, xs: seq<T>, cur: seq<byte>)
    requires spec == Grammar.Prepend(xs, Ok(Grammar.Parsed([], cur)))
    ensures spec == Ok(Grammar.Parsed(xs, cur))
  {
    assert xs + [] == xs;
  }

  /** Prepending nothing changes nothing. */
  lemma PrependNothing<T>(r: ParseResult<seq<T>>)
    ensures Grammar.Prepend([], r) == r
  {
    if r.Ok? {
      assert [] + r.value.value == r.value.value;
    }
  }

  /** Prepending one value and then a prefix is prepending the longer prefix. */
  lemma PrependTwice<T>(acc: seq<T>, v: T, tail: ParseResult<seq<T>>)
    ensures Grammar.Prepend(acc, Grammar.Prepend([v], tail)) == Grammar.Prepend(acc + [v], tail)
  {
    if tail.Ok? {
      assert acc + ([v] + tail.value.value) == (acc + [v]) + tail.value.value;
    }
  }
}
