/**
 * The encoder of src/tag.rs:48-185 as it is written: each operation builds a
 * local buffer step by step. Each method is proved to produce exactly the
 * layout of the function of the same role in module Layout.
 */
module Encoder {
  import opened Wrappers
  import opened Bytes
  import opened Errors
  import opened Tags
  import Layout
  import Seqs

  /** `prefix` followed by the bytes of `r`, or `r`'s error. */
  function After(prefix: seq<byte>, r: Result<seq<byte>, Error>): Result<seq<byte>, Error> {
    match r
    case Ok(s) => Ok(prefix + s)
    case Err(e) => Err(e)
  }

  /** The `for` loops of src/tag.rs:126-128, 167-169 and 178-180: append every element at width `w`. */
  method ExtendElements(buf: seq<byte>, o: ByteOrder, w: nat, xs: seq<int>) returns (out: seq<byte>)
    requires forall k :: 0 <= k < |xs| ==> -Half(w) <= xs[k] < Half(w)
    ensures out == buf + Layout.Elements(o, w, xs)
  {
    out := buf;
    for k := 0 to |xs|
      invariant out + Layout.Elements(o, w, xs[k..]) == buf + Layout.Elements(o, w, xs)
    {
      assert xs[k..][1..] == xs[k + 1..];
      out := out + Encode(o, w, xs[k]);
    }
    assert xs[|xs|..] == [];
  }

  /** An array payload (src/tag.rs:120-129, 161-181): the count, refused beyond i32::MAX, then the elements. */
  method BytesArray(o: ByteOrder, w: nat, xs: seq<int>, tooBig: Error) returns (r: Result<seq<byte>, Error>)
    requires forall k :: 0 <= k < |xs| ==> -Half(w) <= xs[k] < Half(w)
    ensures r == Layout.ArrayPayload(o, w, xs, tooBig)
  {
    if |xs| > I32_MAX {
      return Err(tooBig);
    }
    Pow256Values();
    var buf := Encode(o, 4, |xs|);
    buf := ExtendElements(buf, o, w, xs);
    r := Ok(buf);
  }

  /** A list payload (src/tag.rs:138-152): the first element's id, the count, then each element's payload. */
  method BytesList(t: Tag, o: ByteOrder) returns (r: Result<seq<byte>, Error>)
    requires t.List?
    ensures r == Layout.Payload(t, o)
    decreases t, 0
  {
    Pow256Values();
    var es := t.elements;
    var buf: seq<byte> := [];
    if es != [] {
      buf := buf + Layout.BytesId(es[0], o);
    }
    if |es| > I32_MAX {
      return Err(ListTooBig);
    }
    buf := buf + Encode(o, 4, |es|);
    ghost var whole := Layout.Payload(t, o);
    ListHeader(t, o, buf);
    for k := 0 to |es|
      invariant whole == After(buf, Layout.ElementPayloads(es[k..], o))
    {
      ElementStep(es, k, o, buf, whole);
      var p := BytesPayload(es[k], o);
      if p.Err? {
        return Err(p.error);
      }
      buf := buf + p.value;
    }
    Finished(es, o, buf, whole);
    r := Ok(buf);
  }

  /** The list payload is its header followed by the element payloads. */
  lemma ListHeader(t: Tag, o: ByteOrder, header: seq<byte>)
    requires t.List? && |t.elements| <= I32_MAX
    requires header == (if t.elements == [] then [] else Layout.BytesId(t.elements[0], o)) + Encode(o, 4, |t.elements|)
    ensures Layout.Payload(t, o) == After(header, Layout.ElementPayloads(t.elements[0..], o))
  {
    assert t.elements[0..] == t.elements;
  }

  /** One turn of the element loop of BytesList, on its invariant. */
  lemma ElementStep(es: seq<Tag>, k: nat, o: ByteOrder, buf: seq<byte>, whole: Result<seq<byte>, Error>)
    requires k < |es| && whole == After(buf, Layout.ElementPayloads(es[k..], o))
    ensures var p := Layout.Payload(es[k], o);
      && (p.Err? ==> whole == Err(p.error))
      && (p.Ok? ==> whole == After(buf + p.value, Layout.ElementPayloads(es[k + 1..], o)))
  {
    assert es[k..][1..] == es[k + 1..] && es[k..][0] == es[k];
    var p := Layout.Payload(es[k], o);
    var tail := Layout.ElementPayloads(es[k + 1..], o);
    if p.Ok? && tail.Ok? {
      Seqs.Assoc(buf, p.value, tail.value);
    }
  }

  /** The element loop of BytesList has run its course. */
  lemma Finished(es: seq<Tag>, o: ByteOrder, buf: seq<byte>, whole: Result<seq<byte>, Error>)
    requires whole == After(buf, Layout.ElementPayloads(es[|es|..], o))
    ensures whole == Ok(buf)
  {
    assert es[|es|..] == [] && buf + [] == buf;
  }

  /** A compound payload (src/tag.rs:154-159): every child as a complete tag, then one 0 byte. */
  method BytesCompound(t: Tag, o: ByteOrder) returns (r: Result<seq<byte>, Error>)
    requires t.Compound?
    ensures r == Layout.Payload(t, o)
    decreases t, 0
  {
    var cs := t.children;
    var buf: seq<byte> := [];
    ghost var whole := Layout.Children(cs, o);
    ChildrenFrom(cs, o);
    for k := 0 to |cs|
      invariant whole == After(buf, Layout.Children(cs[k..], o))
    {
      ChildStep(cs, k, o, buf, whole);
      var p := AsBytes(cs[k], o);
      if p.Err? {
        CompoundFails(t, o);
        return Err(p.error);
      }
      buf := buf + p.value;
    }
    ChildrenFinished(cs, o, buf, whole);
    buf := buf + Encode(o, 1, 0);
    CompoundEnd(t, o);
    r := Ok(buf);
  }

  lemma ChildrenFrom(cs: seq<Tag>, o: ByteOrder)
    ensures Layout.Children(cs, o) == After([], Layout.Children(cs[0..], o))
  {
    assert cs[0..] == cs;
    if Layout.Children(cs, o).Ok? {
      assert [] + Layout.Children(cs, o).value == Layout.Children(cs, o).value;
    }
  }

  /** One turn of the child loop of BytesCompound, on its invariant. */
  lemma ChildStep(cs: seq<Tag>, k: nat, o: ByteOrder, buf: seq<byte>, whole: Result<seq<byte>, Error>)
    requires k < |cs| && whole == After(buf, Layout.Children(cs[k..], o))
    ensures var p := Layout.ToBytes(cs[k], o);
      && (p.Err? ==> whole == Err(p.error))
      && (p.Ok? ==> whole == After(buf + p.value, Layout.Children(cs[k + 1..], o)))
  {
    assert cs[k..][1..] == cs[k + 1..] && cs[k..][0] == cs[k];
    var p := Layout.ToBytes(cs[k], o);
    var tail := Layout.Children(cs[k + 1..], o);
    if p.Ok? && tail.Ok? {
      Seqs.Assoc(buf, p.value, tail.value);
    }
  }

  /** The child loop of BytesCompound has run its course. */
  lemma ChildrenFinished(cs: seq<Tag>, o: ByteOrder, buf: seq<byte>, whole: Result<seq<byte>, Error>)
    requires whole == After(buf, Layout.Children(cs[|cs|..], o))
    ensures whole == Ok(buf)
  {
    assert cs[|cs|..] == [] && buf + [] == buf;
  }

  /** A compound whose children fail to encode fails with their error. */
  lemma CompoundFails(t: Tag, o: ByteOrder)
    requires t.Compound? && Layout.Children(t.children, o).Err?
    ensures Layout.Payload(t, o) == Err(Layout.Children(t.children, o).error)
  {
  }

  /** A compound payload is its children followed by the end tag. */
  lemma CompoundEnd(t: Tag, o: ByteOrder)
    requires t.Compound? && Layout.Children(t.children, o).Ok?
    ensures Layout.Payload(t, o) == Ok(Layout.Children(t.children, o).value + Encode(o, 1, 0))
  {
  }

  /** `bytes_payload` (src/tag.rs:110-184). */
  method BytesPayload(t: Tag, o: ByteOrder) returns (r: Result<seq<byte>, Error>)
    ensures r == Layout.Payload(t, o)
    decreases t, 1
  {
    Pow256Values();
    match t {
      case Byte(_, v) => r := Ok(Encode(o, 1, v));
      case Short(_, v) => r := Ok(Encode(o, 2, v));
      case Int(_, v) => r := Ok(Encode(o, 4, v));
      case Long(_, v) => r := Ok(Encode(o, 8, v));
      case Float(_, bits) => r := Ok(Encode(o, 4, bits));
      case Double(_, bits) => r := Ok(Encode(o, 8, bits));
      case ByteArray(_, xs) => r := BytesArray(o, 1, xs, ByteArrayTooBig);
      case String(_, s) =>
        if |s| > U16_MAX {
          return Err(StringTooBig);
        }
        var buf := Encode(o, 2, |s|);
        buf := buf + s;
        r := Ok(buf);
      case List(_, _) => r := BytesList(t, o);
      case Compound(_, _) => r := BytesCompound(t, o);
      case IntArray(_, xs) => r := BytesArray(o, 4, xs, IntArrayTooBig);
      case LongArray(_, xs) => r := BytesArray(o, 8, xs, LongArrayTooBig);
    }
  }

  /**
   * `as_bytes`, returning a result as `to_bytes` does (src/tag.rs:50-59): the
   * id, then the name (an unnamed tag is an error), then the payload. It is
   * the method `BytesCompound` calls for each child, as `Layout.ToBytes` is
   * the function it is proved equal to.
   */
  method AsBytes(t: Tag, o: ByteOrder) returns (r: Result<seq<byte>, Error>)
    ensures r == Layout.ToBytes(t, o)
    decreases t, 2
  {
    var buf: seq<byte> := [];
    buf := buf + Layout.BytesId(t, o);
    var name := Layout.BytesName(t, o);
    if name.Err? {
      return Err(name.error);
    }
    buf := buf + name.value;
    var payload := BytesPayload(t, o);
    if payload.Err? {
      return Err(payload.error);
    }
    buf := buf + payload.value;
    assert buf == Layout.BytesId(t, o) + name.value + payload.value;
    r := Ok(buf);
  }
}
