/**
 * Concrete documents: the round-trip tests of src/parser.rs:474-614, one
 * tree of each variant in both byte orders, and the little-endian bytes of a
 * one-entry document written out byte by byte.
 */
module Fixtures {
  import opened Wrappers
  import opened Bytes
  import opened Tags
  import opened Errors
  import Mutf8
  import Layout
  import Grammar
  import RoundTrip

  /** "foo", the name every test tree carries. */
  const Foo: seq<byte> := [0x66, 0x6F, 0x6F]

  /** "format_version". */
  const FormatVersion: seq<byte> := [0x66, 0x6F, 0x72, 0x6D, 0x61, 0x74, 0x5F, 0x76, 0x65, 0x72, 0x73, 0x69, 0x6F, 0x6E]

  /** `nbt!(Int("format_version", 1))`. */
  const VersionDocument: Tag := Tags.Nbt([Int(Some(FormatVersion), 1)])

  /** Its little-endian bytes: compound id, empty name, the int entry, the end tag. */
  const VersionBytes: seq<byte> :=
    [0x0A, 0x00, 0x00,
     0x03, 0x0E, 0x00] + FormatVersion + [0x01, 0x00, 0x00, 0x00,
     0x00]

  lemma VersionFixture()
    ensures Layout.ToBytes(VersionDocument, LittleEndian) == Ok(VersionBytes)
    ensures Grammar.Nbt(VersionBytes, LittleEndian, Grammar.AsWritten) == Ok(Grammar.Parsed(VersionDocument, []))
  {
    VersionEncoding();
    VersionIsDocument();
    RoundTrip.RoundTrip(VersionDocument, LittleEndian, Grammar.AsWritten);
  }

  /** The document is named and encodable. */
  lemma VersionIsDocument()
    ensures RoundTrip.Document(VersionDocument)
  {
    Mutf8.AsciiValid(FormatVersion);
    assert RoundTrip.Named(VersionDocument.children[0]);
  }

  /** The encoding of the document, piece by piece. */
  lemma VersionEncoding()
    ensures Layout.ToBytes(VersionDocument, LittleEndian) == Ok(VersionBytes)
  {
    var o := LittleEndian;
    var c := VersionBody();
    assert Encode(o, 2, 0) + [] == [0x00, 0x00];
    assert VersionDocument.name == Some([]);
    assert Layout.BytesName(VersionDocument, o) == Ok([0x00, 0x00]);
    Layout.ToBytesLayout(VersionDocument, o);
    assert [0x0A] + [0x00, 0x00] + c == VersionBytes;
  }

  /** The compound payload: the one entry, then the end tag. */
  lemma VersionBody() returns (c: seq<byte>)
    ensures c == [0x03, 0x0E, 0x00] + FormatVersion + [0x01, 0x00, 0x00, 0x00, 0x00]
    ensures Layout.Payload(VersionDocument, LittleEndian) == Ok(c)
  {
    var o := LittleEndian;
    var entry := VersionEntry();
    var child := Int(Some(FormatVersion), 1);
    assert [child][1..] == [];
    assert entry + [] == entry;
    assert Layout.Children([child], o) == Ok(entry);
    assert Encode(o, 1, 0) == [0x00];
    c := entry + [0x00];
  }

  /** The one entry: int id, 14-byte name, the value 1 in four little-endian bytes. */
  lemma VersionEntry() returns (c: seq<byte>)
    ensures c == [0x03, 0x0E, 0x00] + FormatVersion + [0x01, 0x00, 0x00, 0x00]
    ensures Layout.ToBytes(Int(Some(FormatVersion), 1), LittleEndian) == Ok(c)
  {
    var o := LittleEndian;
    var child := Int(Some(FormatVersion), 1);
    assert Encode(o, 2, 14) == [0x0E, 0x00];
    assert Encode(o, 4, 1) == [0x01, 0x00, 0x00, 0x00];
    assert |FormatVersion| == 14;
    assert Layout.BytesName(child, o) == Ok([0x0E, 0x00] + FormatVersion);
    assert Layout.Payload(child, o) == Ok([0x01, 0x00, 0x00, 0x00]);
    Layout.ToBytesLayout(child, o);
    c := [0x03] + ([0x0E, 0x00] + FormatVersion) + [0x01, 0x00, 0x00, 0x00];
  }

  /**
   * The test's assertion: the tree encodes, and decoding its bytes with the
   * decoder as written yields it with nothing left.
   */
  predicate RoundTrips(t: Tag, o: ByteOrder) {
    Layout.ToBytes(t, o).Ok? && Grammar.Nbt(Layout.ToBytes(t, o).value, o, Grammar.AsWritten) == Ok(Grammar.Parsed(t, []))
  }

  /** Tests `byte` through `double` (src/parser.rs:474-538): 42, and the bit patterns of 42.69. */
  lemma ScalarTests(o: ByteOrder)
    ensures RoundTrips(Byte(Some(Foo), 42), o)
    ensures RoundTrips(Short(Some(Foo), 42), o)
    ensures RoundTrips(Int(Some(Foo), 42), o)
    ensures RoundTrips(Long(Some(Foo), 42), o)
    ensures RoundTrips(Float(Some(Foo), 0x422A_C28F), o)
    ensures RoundTrips(Double(Some(Foo), 0x4045_5851_EB85_1EB8), o)
  {
    Mutf8.AsciiValid(Foo);
    RoundTrip.RoundTrip(Byte(Some(Foo), 42), o, Grammar.AsWritten);
    RoundTrip.RoundTrip(Short(Some(Foo), 42), o, Grammar.AsWritten);
    RoundTrip.RoundTrip(Int(Some(Foo), 42), o, Grammar.AsWritten);
    RoundTrip.RoundTrip(Long(Some(Foo), 42), o, Grammar.AsWritten);
    RoundTrip.RoundTrip(Float(Some(Foo), 0x422A_C28F), o, Grammar.AsWritten);
    RoundTrip.RoundTrip(Double(Some(Foo), 0x4045_5851_EB85_1EB8), o, Grammar.AsWritten);
  }

  /** Tests `byte_array`, `int_array` and `long_array` (src/parser.rs:540-549, 594-614). */
  lemma ArrayTests(o: ByteOrder)
    ensures RoundTrips(ByteArray(Some(Foo), [42, 69, 127]), o)
    ensures RoundTrips(IntArray(Some(Foo), [42, 69, 420]), o)
    ensures RoundTrips(LongArray(Some(Foo), [42, 69, 420]), o)
  {
    Mutf8.AsciiValid(Foo);
    RoundTrip.RoundTrip(ByteArray(Some(Foo), [42, 69, 127]), o, Grammar.AsWritten);
    RoundTrip.RoundTrip(IntArray(Some(Foo), [42, 69, 420]), o, Grammar.AsWritten);
    RoundTrip.RoundTrip(LongArray(Some(Foo), [42, 69, 420]), o, Grammar.AsWritten);
  }

  /** "Hello World". */
  const HelloWorld: seq<byte> := [0x48, 0x65, 0x6C, 0x6C, 0x6F, 0x20, 0x57, 0x6F, 0x72, 0x6C, 0x64]

  /** Test `string` (src/parser.rs:551-560). */
  lemma StringTest(o: ByteOrder)
    ensures RoundTrips(String(Some(Foo), HelloWorld), o)
  {
    Mutf8.AsciiValid(Foo);
    Mutf8.AsciiValid(HelloWorld);
    RoundTrip.RoundTrip(String(Some(Foo), HelloWorld), o, Grammar.AsWritten);
  }

  /** Test `list` (src/parser.rs:562-574): three unnamed bytes. */
  lemma ListTest(o: ByteOrder)
    ensures RoundTrips(List(Some(Foo), [Byte(None, 1), Byte(None, 2), Byte(None, 3)]), o)
  {
    Mutf8.AsciiValid(Foo);
    var es := [Byte(None, 1), Byte(None, 2), Byte(None, 3)];
    assert RoundTrip.Encodable(List(Some(Foo), es));
    RoundTrip.RoundTrip(List(Some(Foo), es), o, Grammar.AsWritten);
  }

  /** Test `compound` (src/parser.rs:576-592): bytes named "x", "y" and "z". */
  lemma CompoundTest(o: ByteOrder)
    ensures RoundTrips(Compound(Some(Foo), [Byte(Some([0x78]), 1), Byte(Some([0x79]), 2), Byte(Some([0x7A]), 3)]), o)
  {
    Mutf8.AsciiValid(Foo);
    Mutf8.AsciiValid([0x78]);
    Mutf8.AsciiValid([0x79]);
    Mutf8.AsciiValid([0x7A]);
    var cs := [Byte(Some([0x78]), 1), Byte(Some([0x79]), 2), Byte(Some([0x7A]), 3)];
    assert RoundTrip.Encodable(Compound(Some(Foo), cs));
    RoundTrip.RoundTrip(Compound(Some(Foo), cs), o, Grammar.AsWritten);
  }

  /**
   * Two children named "x" in one compound: the encoder writes them (it does
   * not look at names), and `nbt` refuses the bytes with Fail, with either
   * string reader.
   */
  lemma DuplicateNameTest(o: ByteOrder, sr: Grammar.StringReader)
    ensures var t := Compound(Some(Foo), [Byte(Some([0x78]), 1), Byte(Some([0x78]), 2)]);
      Layout.ToBytes(t, o).Ok? && Grammar.Nbt(Layout.ToBytes(t, o).value, o, sr) == Err(ParseError(Fail))
  {
    Mutf8.AsciiValid(Foo);
    Mutf8.AsciiValid([0x78]);
    var cs := [Byte(Some([0x78]), 1), Byte(Some([0x78]), 2)];
    assert !RoundTrip.Distinct(cs) by {
      assert cs[0].name == cs[1].name;
    }
    RoundTrip.RepeatedNameDocument(Compound(Some(Foo), cs), o, sr);
  }
}
