/**
 * The decoder with the corrected string reader (`Grammar.Corrected`) never
 * looks past what it consumes: a read that succeeds on `i` succeeds in the
 * same way on `i + e`, leaving `e` after what it left before. Hence `nbt`
 * (src/parser.rs:445-468), which ends with `eof`, refuses a document
 * followed by anything, and refuses every strict prefix of a document.
 * With the string reader as written none of this holds (AsWrittenAcceptsPrefix).
 */
module Extension {
  import opened Wrappers
  import opened Bytes
  import opened Errors
  import opened Tags
  import opened Seqs
  import opened Grammar
  import Mutf8

  /** `r` on the longer input `i + e`: the same value, with `e` after the same rest. */
  predicate Extended<T(==)>(r: ParseResult<T>, longer: ParseResult<T>, e: seq<byte>) {
    r.Ok? ==> longer == Ok(Parsed(r.value.value, r.value.rest + e))
  }

  lemma ReadUnsignedExtends(i: seq<byte>, e: seq<byte>, w: nat, o: ByteOrder)
    ensures Extended(ReadUnsigned(i, w, o), ReadUnsigned(i + e, w, o), e)
  {
    if |i| >= w {
      Extend(i, e, w);
    }
  }

  lemma ReadSignedExtends(i: seq<byte>, e: seq<byte>, w: nat, o: ByteOrder)
    requires w > 0
    ensures Extended(ReadSigned(i, w, o), ReadSigned(i + e, w, o), e)
  {
    if |i| >= w {
      Extend(i, e, w);
    }
  }

  lemma ReadIdExtends(i: seq<byte>, e: seq<byte>, allowEnd: bool)
    ensures Extended(ReadId(i, allowEnd), ReadId(i + e, allowEnd), e)
  {
    if |i| > 0 {
      Extend(i, e, 1);
    }
  }

  lemma ReadTextExtends(i: seq<byte>, e: seq<byte>, o: ByteOrder)
    ensures Extended(ReadText(i, o), ReadText(i + e, o), e)
  {
    ReadUnsignedExtends(i, e, 2, o);
    var len := ReadUnsigned(i, 2, o);
    if len.Ok? && len.value.value <= |len.value.rest| {
      Extend(len.value.rest, e, len.value.value);
    }
  }

  lemma {:induction false} ArrayElementsExtends(i: seq<byte>, e: seq<byte>, w: nat, n: nat, o: ByteOrder)
    requires w > 0
    ensures Extended(ArrayElements(i, w, n, o), ArrayElements(i + e, w, n, o), e)
  {
    if n > 0 {
      ArrayElementsStep(i, w, n, o);
      ArrayElementsStep(i + e, w, n, o);
      ReadSignedExtends(i, e, w, o);
      var head := ReadSigned(i, w, o);
      if head.Ok? {
        ArrayElementsExtends(head.value.rest, e, w, n - 1, o);
      }
    }
  }

  lemma ArrayPayloadExtends(i: seq<byte>, e: seq<byte>, w: nat, o: ByteOrder)
    requires w > 0
    ensures Extended(ArrayPayload(i, w, o), ArrayPayload(i + e, w, o), e)
  {
    ReadSignedExtends(i, e, 4, o);
    var count := ReadSigned(i, 4, o);
    if count.Ok? {
      var c := count.value;
      ArrayPayloadHeader(i, w, o, c);
      ArrayPayloadHeader(i + e, w, o, Parsed(c.value, c.rest + e));
      ArrayElementsExtends(c.rest, e, w, if c.value < 0 then 0 else c.value, o);
    }
  }

  lemma PayloadExtends(id: byte, name: Name, i: seq<byte>, e: seq<byte>, o: ByteOrder)
    requires 1 <= id <= 12
    ensures Extended(Payload(id, name, i, o, Corrected), Payload(id, name, i + e, o, Corrected), e)
    decreases |i|, 3
  {
    if id <= 6 {
      ScalarExtends(id, name, i, e, o);
    } else if id == 9 {
      ListTagExtends(name, i, e, o);
    } else if id == 10 {
      CompoundTagExtends(name, i, e, o);
    } else {
      FlatExtends(id, name, i, e, o);
    }
  }

  /** The arrays and the string, type-ids 7, 8, 11 and 12. */
  lemma FlatExtends(id: byte, name: Name, i: seq<byte>, e: seq<byte>, o: ByteOrder)
    requires id in {7, 8, 11, 12}
    ensures Extended(Payload(id, name, i, o, Corrected), Payload(id, name, i + e, o, Corrected), e)
  {
    if id == 7 {
      ArrayPayloadExtends(i, e, 1, o);
    } else if id == 8 {
      ReadTextExtends(i, e, o);
    } else if id == 11 {
      ArrayPayloadExtends(i, e, 4, o);
    } else {
      ArrayPayloadExtends(i, e, 8, o);
    }
  }

  lemma ListTagExtends(name: Name, i: seq<byte>, e: seq<byte>, o: ByteOrder)
    ensures Extended(Payload(9, name, i, o, Corrected), Payload(9, name, i + e, o, Corrected), e)
    decreases |i|, 2
  {
    ListPayloadExtends(i, e, o);
  }

  lemma CompoundTagExtends(name: Name, i: seq<byte>, e: seq<byte>, o: ByteOrder)
    ensures Extended(Payload(10, name, i, o, Corrected), Payload(10, name, i + e, o, Corrected), e)
    decreases |i|, 2
  {
    CompoundExtends(i, [], e, o);
  }

  /** The fixed-width payloads, type-ids 1..6. */
  lemma ScalarExtends(id: byte, name: Name, i: seq<byte>, e: seq<byte>, o: ByteOrder)
    requires 1 <= id <= 6
    ensures Extended(Payload(id, name, i, o, Corrected), Payload(id, name, i + e, o, Corrected), e)
  {
    Pow256Values();
    if id == 1 {
      ReadSignedExtends(i, e, 1, o);
    } else if id == 2 {
      ReadSignedExtends(i, e, 2, o);
    } else if id == 3 {
      ReadSignedExtends(i, e, 4, o);
    } else if id == 4 {
      ReadSignedExtends(i, e, 8, o);
    } else if id == 5 {
      ReadUnsignedExtends(i, e, 4, o);
    } else {
      ReadUnsignedExtends(i, e, 8, o);
    }
  }

  lemma ListPayloadExtends(i: seq<byte>, e: seq<byte>, o: ByteOrder)
    ensures Extended(ListPayload(i, o, Corrected), ListPayload(i + e, o, Corrected), e)
    decreases |i|, 1
  {
    ReadIdExtends(i, e, false);
    var id := ReadId(i, false);
    if id.Ok? {
      var t := id.value;
      ReadSignedExtends(t.rest, e, 4, o);
      var count := ReadSigned(t.rest, 4, o);
      if count.Ok? {
        var c := count.value;
        ListPayloadHeader(i, o, t, c, Corrected);
        ListPayloadHeader(i + e, o, Parsed(t.value, t.rest + e), Parsed(c.value, c.rest + e), Corrected);
        ListElementsExtends(t.value, if c.value < 0 then 0 else c.value, c.rest, e, o);
      }
    }
  }

  lemma ListElementsExtends(id: byte, n: nat, i: seq<byte>, e: seq<byte>, o: ByteOrder)
    requires 1 <= id <= 12
    ensures Extended(ListElements(id, n, i, o, Corrected), ListElements(id, n, i + e, o, Corrected), e)
    decreases |i|, 4, n
  {
    if n > 0 {
      ListElementsStep(id, n, i, o, Corrected);
      ListElementsStep(id, n, i + e, o, Corrected);
      PayloadExtends(id, None, i, e, o);
      var head := Payload(id, None, i, o, Corrected);
      if head.Ok? {
        ListElementsExtends(id, n - 1, head.value.rest, e, o);
      }
    }
  }

  lemma CompoundExtends(i: seq<byte>, seen: seq<seq<byte>>, e: seq<byte>, o: ByteOrder)
    ensures Extended(CompoundPayload(i, seen, o, Corrected), CompoundPayload(i + e, seen, o, Corrected), e)
    decreases |i|, 1
  {
    ReadIdExtends(i, e, true);
    var id := ReadId(i, true);
    if id.Ok? && id.value.value != 0 {
      var t := id.value;
      ReadTextExtends(t.rest, e, o);
      var name := ReadText(t.rest, o);
      if name.Ok? && name.value.value !in seen {
        PayloadExtends(t.value, Some(name.value.value), name.value.rest, e, o);
        var child := Payload(t.value, Some(name.value.value), name.value.rest, o, Corrected);
        if child.Ok? {
          CompoundExtends(child.value.rest, seen + [name.value.value], e, o);
        }
      }
    }
  }

  /** A whole document followed by any further byte is refused with Eof, by the final `eof`. */
  lemma TrailingBytesRejected(p: seq<byte>, e: seq<byte>, o: ByteOrder)
    requires Grammar.Nbt(p, o, Corrected).Ok? && e != []
    ensures Grammar.Nbt(p + e, o, Corrected) == Err(ParseError(Eof))
  {
    ReadIdExtends(p, e, false);
    var id := ReadId(p, false).value;
    ReadTextExtends(id.rest, e, o);
    var name := ReadText(id.rest, o).value;
    PayloadExtends(id.value, Some(name.value), name.rest, e, o);
  }

  /** No strict prefix of a document is a document. */
  lemma PrefixRejected(p: seq<byte>, k: nat, o: ByteOrder)
    requires Grammar.Nbt(p, o, Corrected).Ok? && k < |p|
    ensures Grammar.Nbt(p[..k], o, Corrected).Err?
  {
    Split(p, k);
    if Grammar.Nbt(p[..k], o, Corrected).Ok? {
      TrailingBytesRejected(p[..k], p[k..], o);
      assert false;
    }
  }

  /** "hell". */
  const Hell: seq<byte> := [0x68, 0x65, 0x6C, 0x6C]

  /** A root string named "" whose length announces 5 bytes, followed by 4, in big-endian order. */
  const Cut: seq<byte> := [0x08, 0x00, 0x00, 0x00, 0x05] + Hell

  /**
   * As written, the string reader looks past a short string: "hell" read
   * alone has nothing left, and read with one more byte it becomes "hello".
   * So `nbt` accepts the document `Cut + [0x6F]` and also its strict prefix
   * Cut, and no extension lemma above holds of the string reader as written.
   * The corrected reader refuses Cut.
   */
  lemma AsWrittenAcceptsPrefix()
    ensures Grammar.Nbt(Cut + [0x6F], BigEndian, AsWritten) == Ok(Parsed(String(Some([]), Hell + [0x6F]), []))
    ensures Grammar.Nbt(Cut, BigEndian, AsWritten) == Ok(Parsed(String(Some([]), Hell), []))
    ensures !Extended(StringPayload(Cut[3..], BigEndian, AsWritten), StringPayload(Cut[3..] + [0x6F], BigEndian, AsWritten), [0x6F])
    ensures Grammar.Nbt(Cut, BigEndian, Corrected) == Err(ParseError(Eof))
  {
    CutPayloads();
    StringRoot(Cut, AsWritten);
    StringRoot(Cut, Corrected);
    StringRoot(Cut + [0x6F], AsWritten);
  }

  /** The string payloads after the root's header, with and without the fifth byte. */
  lemma CutPayloads()
    ensures (Cut + [0x6F])[3..] == Cut[3..] + [0x6F]
    ensures StringPayload(Cut[3..], BigEndian, AsWritten) == Ok(Parsed(Hell, []))
    ensures StringPayload(Cut[3..] + [0x6F], BigEndian, AsWritten) == Ok(Parsed(Hell + [0x6F], []))
    ensures StringPayload(Cut[3..], BigEndian, Corrected) == Err(ParseError(Eof))
  {
    TruncatedString();
    assert Cut[3..] == [0x00, 0x05] + Hell;
    HelloRead();
  }

  /** A root of type-id 8 with an empty name is the string payload that follows, which must end the input. */
  lemma StringRoot(i: seq<byte>, sr: StringReader)
    requires |i| >= 3 && i[..3] == [0x08, 0x00, 0x00]
    ensures var v := StringPayload(i[3..], BigEndian, sr);
      Grammar.Nbt(i, BigEndian, sr)
        == if v.Err? then Err(v.error)
           else if v.value.rest != [] then Err(ParseError(Eof))
           else Ok(Parsed(String(Some([]), v.value.value), []))
  {
    NamelessRoot(i);
  }

  /** A root of type-id 8 with an empty name: the payload starts at byte 3. */
  lemma NamelessRoot(i: seq<byte>)
    requires |i| >= 3 && i[..3] == [0x08, 0x00, 0x00]
    ensures ReadId(i, false) == Ok(Parsed(8, i[1..]))
    ensures ReadText(i[1..], BigEndian) == Ok(Parsed([], i[3..]))
  {
    assert i[1..][..2] == [0x00, 0x00] && [0x00, 0x00][..1] == [0x00];
    assert i[1..][2..2] == [] && i[1..][2..] == i[3..];
  }

  /** The five announced bytes present: the as-written reader takes "hello" and leaves nothing. */
  lemma HelloRead()
    ensures StringPayloadAsWritten([0x00, 0x05] + Hell + [0x6F], BigEndian) == Ok(Parsed(Hell + [0x6F], []))
  {
    var i := [0x00, 0x05] + Hell + [0x6F];
    assert DecodeUnsigned(BigEndian, i[..2]) == 5 by {
      assert i[..2] == [0x00, 0x05];
      assert [0x00, 0x05][..1] == [0x00];
    }
    assert i[2..7] == Hell + [0x6F] && i[7..] == [];
    Mutf8.AsciiValid(Hell + [0x6F]);
  }
}
