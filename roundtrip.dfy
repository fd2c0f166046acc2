/**
 * The decoder reads back what the encoder writes: for every tree the encoder
 * of src/tag.rs can write, and that the decoder of src/parser.rs can
 * represent, decoding the bytes gives the same tree and consumes exactly
 * those bytes.
 */
module RoundTrip {
  import opened Wrappers
  import opened Bytes
  import opened Errors
  import opened Tags
  import Mutf8
  import Layout
  import Grammar
  import opened Seqs

  /**
   * A tree made only of what the wire can carry and the decoder rebuilds:
   * strings that are valid modified UTF-8 of at most 65535 bytes, arrays and
   * lists of at most 2^31 - 1 elements, lists that are non-empty (the
   * encoder omits the element id of an empty list), homogeneous and unnamed,
   * and compound children that are named, with writable and distinct names.
   */
  predicate Encodable(t: Tag)
    decreases t
  {
    match t
    case ByteArray(_, xs) => |xs| <= I32_MAX
    case String(_, s) => Mutf8.Writable(s)
    case List(_, es) =>
      && 0 < |es| <= I32_MAX
      && forall k :: 0 <= k < |es| ==> es[k].name.None? && Id(es[k]) == Id(es[0]) && Encodable(es[k])
    case Compound(_, cs) =>
      && (forall k :: 0 <= k < |cs| ==> Named(cs[k]) && Encodable(cs[k]))
      && Distinct(cs)
    case IntArray(_, xs) => |xs| <= I32_MAX
    case LongArray(_, xs) => |xs| <= I32_MAX
    case _ => true
  }

  /** The tag carries a name the encoder can write. */
  predicate Named(t: Tag) {
    t.name.Some? && Mutf8.Writable(t.name.value)
  }

  /** No two tags in `cs` carry the same name. */
  predicate Distinct(cs: seq<Tag>) {
    forall j, k :: 0 <= j < k < |cs| ==> cs[j].name != cs[k].name
  }

  /** Every tag of `cs` is named, and no name is among `seen`. */
  predicate Unseen(cs: seq<Tag>, seen: seq<seq<byte>>) {
    forall k :: 0 <= k < |cs| ==> cs[k].name.Some? && cs[k].name.value !in seen
  }

  /** A complete document: a named root over an encodable tree. */
  predicate Document(t: Tag) {
    Named(t) && Encodable(t)
  }

  lemma ReadSignedEncoded(o: ByteOrder, w: nat, v: int, rest: seq<byte>)
    requires w > 0 && -Half(w) <= v < Half(w)
    ensures Grammar.ReadSigned(Encode(o, w, v) + rest, w, o) == Ok(Grammar.Parsed(v, rest))
  {
    var i := Encode(o, w, v) + rest;
    assert i[..w] == Encode(o, w, v) && i[w..] == rest;
    SignedRoundTrip(o, w, v);
  }

  lemma ReadUnsignedEncoded(o: ByteOrder, w: nat, u: int, rest: seq<byte>)
    requires 0 <= u < Pow256(w)
    ensures Grammar.ReadUnsigned(Encode(o, w, u) + rest, w, o) == Ok(Grammar.Parsed(u, rest))
  {
    var i := Encode(o, w, u) + rest;
    assert i[..w] == Encode(o, w, u) && i[w..] == rest;
    UnsignedRoundTrip(o, w, u);
  }

  /** A length-prefixed text reads back as the text. */
  lemma ReadTextEncoded(o: ByteOrder, s: seq<byte>, rest: seq<byte>)
    requires Mutf8.Writable(s)
    ensures Grammar.ReadText(Layout.LengthPrefixed(o, s) + rest, o) == Ok(Grammar.Parsed(s, rest))
  {
    var p := Layout.LengthPrefixed(o, s);
    var i := p + rest;
    assert i[..2] == p[..2];
    assert i[2..] == s + rest;
    assert (s + rest)[..|s|] == s && (s + rest)[|s|..] == rest;
  }

  /**
   * A length-prefixed text reads back as a string payload with either
   * reader: the announced bytes are all there, so the as-written reader
   * agrees with `take(len)`.
   */
  lemma StringPayloadEncoded(o: ByteOrder, s: seq<byte>, rest: seq<byte>, sr: Grammar.StringReader)
    requires Mutf8.Writable(s)
    ensures Grammar.StringPayload(Layout.LengthPrefixed(o, s) + rest, o, sr) == Ok(Grammar.Parsed(s, rest))
  {
    var i := Layout.LengthPrefixed(o, s) + rest;
    ReadTextEncoded(o, s, rest);
    assert i[..2] == Layout.LengthPrefixed(o, s)[..2];
    Grammar.StringPayloadAgrees(i, o);
  }

  /** Array elements read back, one width at a time. */
  lemma {:induction false} ArrayElementsEncoded(o: ByteOrder, w: nat, xs: seq<int>, rest: seq<byte>)
    requires w > 0 && forall k :: 0 <= k < |xs| ==> -Half(w) <= xs[k] < Half(w)
    ensures Grammar.ArrayElements(Layout.Elements(o, w, xs) + rest, w, |xs|, o) == Ok(Grammar.Parsed(xs, rest))
    decreases xs
  {
    if xs == [] {
      assert [] + rest == rest;
    } else {
      var head, tail := Encode(o, w, xs[0]), Layout.Elements(o, w, xs[1..]);
      assert Layout.Elements(o, w, xs) == head + tail;
      Assoc(head, tail, rest);
      var i := head + (tail + rest);
      ReadSignedEncoded(o, w, xs[0], tail + rest);
      Grammar.ArrayElementsStep(i, w, |xs|, o);
      ArrayElementsEncoded(o, w, xs[1..], rest);
      var later := Grammar.ArrayElements(tail + rest, w, |xs| - 1, o);
      assert later == Ok(Grammar.Parsed(xs[1..], rest));
      Uncons(xs);
      assert Grammar.Prepend([xs[0]], later) == Ok(Grammar.Parsed(xs, rest));
    }
  }

  lemma ArrayPayloadEncoded(o: ByteOrder, w: nat, xs: seq<int>, tooBig: Error, rest: seq<byte>)
    requires w > 0 && forall k :: 0 <= k < |xs| ==> -Half(w) <= xs[k] < Half(w)
    requires |xs| <= I32_MAX
    ensures Layout.ArrayPayload(o, w, xs, tooBig).Ok?
    ensures Grammar.ArrayPayload(Layout.ArrayPayload(o, w, xs, tooBig).value + rest, w, o) == Ok(Grammar.Parsed(xs, rest))
  {
    Pow256Values();
    var body := Layout.Elements(o, w, xs);
    assert Layout.ArrayPayload(o, w, xs, tooBig).value + rest == Encode(o, 4, |xs|) + (body + rest);
    ReadSignedEncoded(o, 4, |xs|, body + rest);
    ArrayElementsEncoded(o, w, xs, rest);
  }

  /** A payload reads back, under its variant's type-id, as the tag it came from. */
  lemma {:induction false} PayloadRoundTrip(t: Tag, o: ByteOrder, rest: seq<byte>, sr: Grammar.StringReader)
    requires Encodable(t)
    ensures Layout.Payload(t, o).Ok?
    ensures Grammar.Payload(Id(t), t.name, Layout.Payload(t, o).value + rest, o, sr) == Ok(Grammar.Parsed(t, rest))
    decreases t, 1
  {
    match t
    case List(_, es) => ListRoundTrip(t, o, rest, sr);
    case Compound(_, cs) => CompoundRoundTrip(t, o, rest, sr);
    case _ => LeafRoundTrip(t, o, rest, sr);
  }

  /** The payloads of the variants without children: numbers, arrays and strings. */
  lemma LeafRoundTrip(t: Tag, o: ByteOrder, rest: seq<byte>, sr: Grammar.StringReader)
    requires !t.List? && !t.Compound? && Encodable(t)
    ensures Layout.Payload(t, o).Ok?
    ensures Grammar.Payload(Id(t), t.name, Layout.Payload(t, o).value + rest, o, sr) == Ok(Grammar.Parsed(t, rest))
  {
    Pow256Values();
    match t
    case Byte(_, v) => ReadSignedEncoded(o, 1, v, rest);
    case Short(_, v) => ReadSignedEncoded(o, 2, v, rest);
    case Int(_, v) => ReadSignedEncoded(o, 4, v, rest);
    case Long(_, v) => ReadSignedEncoded(o, 8, v, rest);
    case Float(_, bits) => ReadUnsignedEncoded(o, 4, bits, rest);
    case Double(_, bits) => ReadUnsignedEncoded(o, 8, bits, rest);
    case ByteArray(_, xs) => ArrayPayloadEncoded(o, 1, xs, ByteArrayTooBig, rest);
    case String(_, s) => StringPayloadEncoded(o, s, rest, sr);
    case IntArray(_, xs) => ArrayPayloadEncoded(o, 4, xs, IntArrayTooBig, rest);
    case LongArray(_, xs) => ArrayPayloadEncoded(o, 8, xs, LongArrayTooBig, rest);
  }

  lemma {:induction false} ListRoundTrip(t: Tag, o: ByteOrder, rest: seq<byte>, sr: Grammar.StringReader)
    requires t.List? && Encodable(t)
    ensures Layout.Payload(t, o).Ok?
    ensures Grammar.ListPayload(Layout.Payload(t, o).value + rest, o, sr) == Ok(Grammar.Parsed(t.elements, rest))
    decreases t, 0
  {
    var es := t.elements;
    var id := Id(es[0]);
    ElementsRoundTrip(id, es, o, rest, sr);
    var body := Layout.ElementPayloads(es, o).value + rest;
    var counted := Encode(o, 4, |es|) + body;
    ListBytes(t, o);
    var i := Layout.Payload(t, o).value + rest;
    Regroup([id], Encode(o, 4, |es|), Layout.ElementPayloads(es, o).value, rest);
    Assoc(Encode(o, 4, |es|), Layout.ElementPayloads(es, o).value, rest);
    Pow256Values();
    ReadSignedEncoded(o, 4, |es|, body);
    ListHeader(i, o, id, counted, |es|, body, sr);
  }

  /** A non-empty list's payload: the first element's type-id, the count, the element payloads. */
  lemma ListBytes(t: Tag, o: ByteOrder)
    requires t.List? && 0 < |t.elements| <= I32_MAX && Layout.ElementPayloads(t.elements, o).Ok?
    ensures Layout.Payload(t, o)
      == Ok([Id(t.elements[0])] + Encode(o, 4, |t.elements|) + Layout.ElementPayloads(t.elements, o).value)
  {
  }

  /** The list reader after its element type-id and count: the counted elements. */
  lemma ListHeader(i: seq<byte>, o: ByteOrder, id: byte, counted: seq<byte>, n: int, body: seq<byte>, sr: Grammar.StringReader)
    requires 1 <= id <= 12 && i == [id] + counted
    requires Grammar.ReadSigned(counted, 4, o) == Ok(Grammar.Parsed(n, body))
    ensures Grammar.ListPayload(i, o, sr) == Grammar.ListElements(id, n, body, o, sr)
  {
    assert Grammar.ReadId(i, false) == Ok(Grammar.Parsed(id, counted));
  }

  lemma {:induction false} CompoundRoundTrip(t: Tag, o: ByteOrder, rest: seq<byte>, sr: Grammar.StringReader)
    requires t.Compound? && Encodable(t)
    ensures Layout.Payload(t, o).Ok?
    ensures Grammar.CompoundPayload(Layout.Payload(t, o).value + rest, [], o, sr) == Ok(Grammar.Parsed(t.children, rest))
    decreases t, 0
  {
    SingleByte(o, 0);
    ChildrenRoundTrip(t.children, [], o, rest, sr);
    assert Layout.Payload(t, o).value + rest == Layout.Children(t.children, o).value + [0] + rest;
  }

  /** Every tag of `es` is an unnamed, encodable tag with type-id `id`: what a list's elements must be. */
  predicate Elements(id: byte, es: seq<Tag>) {
    forall k :: 0 <= k < |es| ==> es[k].name.None? && Id(es[k]) == id && Encodable(es[k])
  }

  lemma ElementsTail(id: byte, es: seq<Tag>)
    requires es != [] && Elements(id, es)
    ensures es[0].name.None? && Id(es[0]) == id && Encodable(es[0]) && Elements(id, es[1..])
  {
    assert forall k :: 0 <= k < |es[1..]| ==> es[1..][k] == es[k + 1];
  }

  /** The unnamed payloads of a list's elements read back as the elements. */
  lemma {:induction false} ElementsRoundTrip(id: byte, es: seq<Tag>, o: ByteOrder, rest: seq<byte>, sr: Grammar.StringReader)
    requires 1 <= id <= 12 && Elements(id, es)
    ensures Layout.ElementPayloads(es, o).Ok?
    ensures Grammar.ListElements(id, |es|, Layout.ElementPayloads(es, o).value + rest, o, sr) == Ok(Grammar.Parsed(es, rest))
    decreases es
  {
    if es == [] {
      assert [] + rest == rest;
    } else {
      ElementsTail(id, es);
      ElementsRoundTrip(id, es[1..], o, rest, sr);
      var tail := Layout.ElementPayloads(es[1..], o).value;
      PayloadRoundTrip(es[0], o, tail + rest, sr);
      ElementPayloadsSplit(es, o);
      ElementStep(id, es, Layout.Payload(es[0], o).value, tail, o, rest, sr);
    }
  }

  /** One element read in front of the others. */
  lemma ElementStep(id: byte, es: seq<Tag>, head: seq<byte>, tail: seq<byte>, o: ByteOrder, rest: seq<byte>, sr: Grammar.StringReader)
    requires 1 <= id <= 12 && es != [] && Id(es[0]) == id
    requires Grammar.Payload(id, None, head + (tail + rest), o, sr) == Ok(Grammar.Parsed(es[0], tail + rest))
    requires Grammar.ListElements(id, |es| - 1, tail + rest, o, sr) == Ok(Grammar.Parsed(es[1..], rest))
    ensures Grammar.ListElements(id, |es|, head + tail + rest, o, sr) == Ok(Grammar.Parsed(es, rest))
  {
    Assoc(head, tail, rest);
    Grammar.ListElementsStep(id, |es|, head + (tail + rest), o, sr);
    Uncons(es);
  }

  lemma ElementPayloadsSplit(es: seq<Tag>, o: ByteOrder)
    requires es != [] && Layout.Payload(es[0], o).Ok? && Layout.ElementPayloads(es[1..], o).Ok?
    ensures Layout.ElementPayloads(es, o)
      == Ok(Layout.Payload(es[0], o).value + Layout.ElementPayloads(es[1..], o).value)
  {
  }

  /**
   * A named tag's bytes, followed by anything, split into its type-id, its
   * name and its payload, and the name and the payload read back.
   */
  lemma {:induction false} TagRoundTrip(t: Tag, o: ByteOrder, rest: seq<byte>, sr: Grammar.StringReader)
    requires Document(t)
    ensures Layout.ToBytes(t, o).Ok? && Layout.Payload(t, o).Ok?
    ensures Layout.ToBytes(t, o).value + rest
      == [Id(t)] + (Layout.LengthPrefixed(o, t.name.value) + (Layout.Payload(t, o).value + rest))
    ensures Grammar.ReadText(Layout.LengthPrefixed(o, t.name.value) + (Layout.Payload(t, o).value + rest), o)
      == Ok(Grammar.Parsed(t.name.value, Layout.Payload(t, o).value + rest))
    ensures Grammar.Payload(Id(t), t.name, Layout.Payload(t, o).value + rest, o, sr) == Ok(Grammar.Parsed(t, rest))
    decreases t, 2
  {
    PayloadRoundTrip(t, o, rest, sr);
    ToBytesSplit(t, o, rest);
    ReadTextEncoded(o, t.name.value, Layout.Payload(t, o).value + rest);
  }

  lemma ToBytesSplit(t: Tag, o: ByteOrder, rest: seq<byte>)
    requires Named(t) && Layout.Payload(t, o).Ok?
    ensures Layout.ToBytes(t, o).Ok?
    ensures Layout.ToBytes(t, o).value + rest
      == [Id(t)] + (Layout.LengthPrefixed(o, t.name.value) + (Layout.Payload(t, o).value + rest))
  {
    Layout.ToBytesLayout(t, o);
  }

  /** A compound's children followed by its end tag read back as the children, given names not yet seen. */
  lemma {:induction false} ChildrenRoundTrip(cs: seq<Tag>, seen: seq<seq<byte>>, o: ByteOrder, rest: seq<byte>, sr: Grammar.StringReader)
    requires forall k :: 0 <= k < |cs| ==> Named(cs[k]) && Encodable(cs[k]) && cs[k].name.value !in seen
    requires Distinct(cs)
    ensures Layout.Children(cs, o).Ok?
    ensures Grammar.CompoundPayload(Layout.Children(cs, o).value + [0] + rest, seen, o, sr) == Ok(Grammar.Parsed(cs, rest))
    decreases cs
  {
    if cs == [] {
      assert ([] + [0] + rest)[1..] == rest;
    } else {
      var c := cs[0];
      var n := c.name.value;
      assert Document(c);
      TailFresh(cs, seen, n);
      ChildrenRoundTrip(cs[1..], seen + [n], o, rest, sr);
      var tail := Layout.Children(cs[1..], o).value;
      var after := tail + [0] + rest;
      TagRoundTrip(c, o, after, sr);
      ChildrenSplit(cs, o);
      var i := Layout.Children(cs, o).value + [0] + rest;
      assert Grammar.CompoundPayload(i, seen, o, sr)
          == Grammar.Prepend([c], Grammar.CompoundPayload(after, seen + [n], o, sr)) by {
        var head := Layout.ToBytes(c, o).value;
        Regroup(head, tail, [0], rest);
        var payload := Layout.Payload(c, o).value + after;
        ChildStep(c, seen, o, i, Layout.LengthPrefixed(o, n) + payload, payload, after, sr);
      }
      Uncons(cs);
    }
  }

  lemma ChildrenSplit(cs: seq<Tag>, o: ByteOrder)
    requires cs != [] && Layout.ToBytes(cs[0], o).Ok? && Layout.Children(cs[1..], o).Ok?
    ensures Layout.Children(cs, o).Ok?
    ensures Layout.Children(cs, o).value == Layout.ToBytes(cs[0], o).value + Layout.Children(cs[1..], o).value
  {
  }

  /** After the first child is read, the others' names are still fresh and distinct. */
  lemma TailFresh(cs: seq<Tag>, seen: seq<seq<byte>>, n: seq<byte>)
    requires cs != [] && cs[0].name == Some(n)
    requires forall k :: 0 <= k < |cs| ==> Named(cs[k]) && Encodable(cs[k]) && cs[k].name.value !in seen
    requires Distinct(cs)
    ensures forall k :: 0 <= k < |cs[1..]| ==>
      Named(cs[1..][k]) && Encodable(cs[1..][k]) && cs[1..][k].name.value !in seen + [n]
    ensures Distinct(cs[1..])
  {
    forall k | 0 <= k < |cs[1..]|
      ensures cs[1..][k].name.value !in seen + [n]
    {
      assert cs[1..][k] == cs[k + 1];
      assert cs[0].name != cs[k + 1].name;
    }
    forall j, k | 0 <= j < k < |cs[1..]|
      ensures cs[1..][j].name != cs[1..][k].name
    {
      assert cs[1..][j] == cs[j + 1] && cs[1..][k] == cs[k + 1];
    }
  }

  /** One child read by the compound loop: type-id, fresh name, payload, then the loop goes on. */
  lemma ChildStep(c: Tag, seen: seq<seq<byte>>, o: ByteOrder, i: seq<byte>, named: seq<byte>, payload: seq<byte>, after: seq<byte>, sr: Grammar.StringReader)
    requires c.name.Some? && c.name.value !in seen
    requires i == [Id(c)] + named
    requires Grammar.ReadText(named, o) == Ok(Grammar.Parsed(c.name.value, payload))
    requires Grammar.Payload(Id(c), c.name, payload, o, sr) == Ok(Grammar.Parsed(c, after))
    ensures Grammar.CompoundPayload(i, seen, o, sr)
      == Grammar.Prepend([c], Grammar.CompoundPayload(after, seen + [c.name.value], o, sr))
  {
    assert Grammar.ReadId(i, true) == Ok(Grammar.Parsed(Id(c), named));
  }

  /** Every tag of `cs` is named and encodable: what a compound's children must be for the encoder. */
  predicate Entries(cs: seq<Tag>) {
    forall k :: 0 <= k < |cs| ==> Named(cs[k]) && Encodable(cs[k])
  }

  lemma EntriesTail(cs: seq<Tag>)
    requires cs != [] && Entries(cs)
    ensures Document(cs[0]) && Entries(cs[1..])
  {
    assert forall k :: 0 <= k < |cs[1..]| ==> cs[1..][k] == cs[k + 1];
  }

  /** Named, encodable children always encode. */
  lemma {:induction false} ChildrenEncode(cs: seq<Tag>, o: ByteOrder)
    requires Entries(cs)
    ensures Layout.Children(cs, o).Ok?
    decreases cs
  {
    if cs != [] {
      EntriesTail(cs);
      TagRoundTrip(cs[0], o, [], Grammar.Corrected);
      ChildrenEncode(cs[1..], o);
    }
  }

  /**
   * The compound loop refuses, with Fail, named and encodable children of
   * which one repeats a name seen before or the name of an earlier sibling
   * (src/parser.rs:316-318).
   */
  lemma {:induction false} RepeatedNameRefused(cs: seq<Tag>, seen: seq<seq<byte>>, o: ByteOrder, rest: seq<byte>, sr: Grammar.StringReader)
    requires Entries(cs)
    requires !(Distinct(cs) && Unseen(cs, seen))
    ensures Layout.Children(cs, o).Ok?
    ensures Grammar.CompoundPayload(Layout.Children(cs, o).value + [0] + rest, seen, o, sr) == Err(ParseError(Fail))
    decreases cs
  {
    var named, payload, after := FirstChild(cs, o, rest, sr);
    var c := cs[0];
    var n := c.name.value;
    var i := Layout.Children(cs, o).value + [0] + rest;
    if n in seen {
      assert i[1..] == named;
    } else {
      ChildStep(c, seen, o, i, named, payload, after, sr);
      TailRepeats(cs, seen, n);
      RepeatedNameRefused(cs[1..], seen + [n], o, rest, sr);
    }
  }

  /** The bytes of named, encodable children, split at the first child's type-id, name and payload. */
  lemma FirstChild(cs: seq<Tag>, o: ByteOrder, rest: seq<byte>, sr: Grammar.StringReader)
    returns (named: seq<byte>, payload: seq<byte>, after: seq<byte>)
    requires cs != [] && Entries(cs)
    ensures Named(cs[0]) && Entries(cs[1..])
    ensures Layout.Children(cs, o).Ok? && Layout.Children(cs[1..], o).Ok?
    ensures after == Layout.Children(cs[1..], o).value + [0] + rest
    ensures Layout.Children(cs, o).value + [0] + rest == [Id(cs[0])] + named
    ensures Grammar.ReadText(named, o) == Ok(Grammar.Parsed(cs[0].name.value, payload))
    ensures Grammar.Payload(Id(cs[0]), cs[0].name, payload, o, sr) == Ok(Grammar.Parsed(cs[0], after))
  {
    var c := cs[0];
    EntriesTail(cs);
    ChildrenEncode(cs[1..], o);
    var tail := Layout.Children(cs[1..], o).value;
    after := tail + [0] + rest;
    TagRoundTrip(c, o, after, sr);
    ChildrenSplit(cs, o);
    payload := Layout.Payload(c, o).value + after;
    named := Layout.LengthPrefixed(o, c.name.value) + payload;
    Regroup(Layout.ToBytes(c, o).value, tail, [0], rest);
  }

  /** When the first child is fresh, the repetition is among the others, with its name now seen. */
  lemma TailRepeats(cs: seq<Tag>, seen: seq<seq<byte>>, n: seq<byte>)
    requires cs != [] && cs[0].name == Some(n) && n !in seen
    requires !(Distinct(cs) && Unseen(cs, seen))
    ensures !(Distinct(cs[1..]) && Unseen(cs[1..], seen + [n]))
  {
    if Distinct(cs[1..]) && Unseen(cs[1..], seen + [n]) {
      forall j, k | 0 <= j < k < |cs|
        ensures cs[j].name != cs[k].name
      {
        assert cs[k] == cs[1..][k - 1];
        if j > 0 {
          assert cs[j] == cs[1..][j - 1];
        }
      }
      forall k | 0 <= k < |cs|
        ensures cs[k].name.Some? && cs[k].name.value !in seen
      {
        if k > 0 {
          assert cs[k] == cs[1..][k - 1];
        }
      }
      assert false;
    }
  }

  /**
   * `nbt` refuses a document whose root compound has named, encodable
   * children that repeat a name, though the encoder writes it.
   */
  lemma RepeatedNameDocument(t: Tag, o: ByteOrder, sr: Grammar.StringReader)
    requires t.Compound? && Named(t) && Entries(t.children) && !Distinct(t.children)
    ensures Layout.ToBytes(t, o).Ok?
    ensures Grammar.Nbt(Layout.ToBytes(t, o).value, o, sr) == Err(ParseError(Fail))
  {
    RepeatedNameRefused(t.children, [], o, [], sr);
    var body := Layout.Children(t.children, o).value + [0];
    assert body + [] == body;
    Layout.CompoundLayout(t, o);
    ToBytesSplit(t, o, []);
    var i := Layout.ToBytes(t, o).value;
    assert i == i + [];
    ReadTextEncoded(o, t.name.value, body);
    assert Grammar.ReadId(i, false) == Ok(Grammar.Parsed(10, Layout.LengthPrefixed(o, t.name.value) + body));
  }

  /**
   * The round trip of `as_bytes` (src/tag.rs:50-59) and `nbt`
   * (src/parser.rs:445-468): a document encodes without error, and
   * decoding its bytes gives back the same document with nothing left over.
   */
  lemma RoundTrip(t: Tag, o: ByteOrder, sr: Grammar.StringReader)
    requires Document(t)
    ensures Layout.ToBytes(t, o).Ok?
    ensures Grammar.Nbt(Layout.ToBytes(t, o).value, o, sr) == Ok(Grammar.Parsed(t, []))
  {
    TagRoundTrip(t, o, [], sr);
    var i := Layout.ToBytes(t, o).value;
    assert i == i + [];
    NbtReads(t, i, Layout.LengthPrefixed(o, t.name.value) + (Layout.Payload(t, o).value + []), Layout.Payload(t, o).value + [], o, sr);
  }

  /** `nbt` on a root's type-id, name and payload that read back as `t` with nothing left. */
  lemma NbtReads(t: Tag, i: seq<byte>, named: seq<byte>, payload: seq<byte>, o: ByteOrder, sr: Grammar.StringReader)
    requires 1 <= Id(t) <= 12 && t.name.Some? && i == [Id(t)] + named
    requires Grammar.ReadText(named, o) == Ok(Grammar.Parsed(t.name.value, payload))
    requires Grammar.Payload(Id(t), t.name, payload, o, sr) == Ok(Grammar.Parsed(t, []))
    ensures Grammar.Nbt(i, o, sr) == Ok(Grammar.Parsed(t, []))
  {
    assert Grammar.ReadId(i, false) == Ok(Grammar.Parsed(Id(t), named));
  }

  /**
   * `nbt!(children..)` (src/tag.rs:187-207) makes a document whenever its
   * children are named, encodable and distinctly named: it encodes and reads
   * back as itself.
   */
  lemma WrapperRoundTrip(children: seq<Tag>, o: ByteOrder, sr: Grammar.StringReader)
    requires forall k :: 0 <= k < |children| ==> Named(children[k]) && Encodable(children[k])
    requires Distinct(children)
    ensures Layout.ToBytes(Tags.Nbt(children), o).Ok?
    ensures Grammar.Nbt(Layout.ToBytes(Tags.Nbt(children), o).value, o, sr) == Ok(Grammar.Parsed(Tags.Nbt(children), []))
  {
    RoundTrip(Tags.Nbt(children), o, sr);
  }

  /**
   * An empty list cannot round-trip: the encoder writes only its 4-byte
   * count, with no element type-id (src/tag.rs:140-146), and the decoder
   * then reads the count's first byte as that id, which must be 1..12
   * (src/parser.rs:212-214); the first byte of a zero count is 0.
   */
  lemma EmptyListFails(n: seq<byte>, o: ByteOrder, sr: Grammar.StringReader)
    requires Mutf8.Writable(n)
    ensures Layout.ToBytes(List(Some(n), []), o) == Ok([9] + Layout.LengthPrefixed(o, n) + [0, 0, 0, 0])
    ensures Grammar.Nbt(Layout.ToBytes(List(Some(n), []), o).value, o, sr) == Err(ParseError(OneOf))
  {
    EmptyListBytes(n, o);
    var count: seq<byte> := [0, 0, 0, 0];
    var i := [9] + (Layout.LengthPrefixed(o, n) + count);
    ReadTextEncoded(o, n, count);
    assert Grammar.ReadId(i, false) == Ok(Grammar.Parsed(9, Layout.LengthPrefixed(o, n) + count));
    ZeroCountRefused(Some(n), o, sr);
  }

  /** A zero count where the list reader wants an element type-id is refused. */
  lemma ZeroCountRefused(name: Name, o: ByteOrder, sr: Grammar.StringReader)
    ensures Grammar.Payload(9, name, [0, 0, 0, 0], o, sr) == Err(ParseError(OneOf))
  {
    assert Grammar.ListPayload([0, 0, 0, 0], o, sr) == Err(ParseError(OneOf));
  }

  /** The bytes of an empty list: id, name, and a zero count. */
  lemma EmptyListBytes(n: seq<byte>, o: ByteOrder)
    requires Mutf8.Writable(n)
    ensures Layout.ToBytes(List(Some(n), []), o) == Ok([9] + Layout.LengthPrefixed(o, n) + [0, 0, 0, 0])
    ensures [9] + Layout.LengthPrefixed(o, n) + [0, 0, 0, 0] == [9] + (Layout.LengthPrefixed(o, n) + [0, 0, 0, 0])
  {
    var count := Encode(o, 4, 0);
    assert count == [0, 0, 0, 0];
    assert Layout.Payload(List(Some(n), []), o) == Ok(count) by {
      assert [] + count + [] == count;
    }
    Layout.ToBytesLayout(List(Some(n), []), o);
    Assoc([9], Layout.LengthPrefixed(o, n), count);
  }
}
