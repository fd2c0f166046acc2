# NBT codec of mcnbt, modelled and verified in Dafny

mcnbt reads and writes NBT, a binary format for a tree of tags. Each tag is a
type-id byte (1..12), a 16-bit length-prefixed name, and a payload whose layout
depends on the type. Multi-byte numbers are written in one byte order for the
whole document, big-endian or little-endian. This project models the two halves
of the crate's codec and proves that they fit together:

- the **encoder**, `Tag::as_bytes` with `bytes_id`, `bytes_name` and
  `bytes_payload` (src/tag.rs);
- the **decoder**, the nom-based recursive-descent parser: `id`, `name`, one
  reader per payload type, `list_payload`, `compound_payload` and `nbt`
  (src/parser.rs).

The decoder functions take a `Grammar.StringReader`, the way a string payload
is read:

- `AsWritten` is `string_payload` as the code has it (src/parser.rs:190-200).
  It takes at most the announced number of bytes and accepts fewer.
- `Corrected` takes exactly the announced bytes, as `name` does, and fails
  with `Eof` when they are not all there (see "## Findings").

The imperative parser (`Parser`) and the crate's tests (`Fixtures`) use the
reader as written. The round trip holds with either reader. The prefix results
of `Extension` hold only with the corrected one, and
`Extension.AsWrittenAcceptsPrefix` shows a document for which they fail as
written.

Each half is written twice:

- once as pure functions that fix the wire layout: module `Layout` for the
  encoder, module `Grammar` for the decoder;
- once as imperative methods that work step by step the way the Rust code
  does, building a buffer or walking a cursor through counted loops: modules
  `Encoder` and `Parser`.

Each method is proved to return exactly what its function prescribes. On top of
the functions the project proves:

- the byte-exact encoding facts of every variant (`Layout`);
- the decoding facts: what each reader consumes, when it fails and with which
  error, and that lists are homogeneous and compounds duplicate-free (`Grammar`);
- the round trip: every tree the encoder can write and the decoder can
  represent decodes back to itself with nothing left over (`RoundTrip`);
- that the decoder with the corrected string reader never reads past what it
  consumes, so `nbt` refuses trailing bytes and every strict prefix of a
  document (`Extension`);
- that a compound with a repeated child name is written by the encoder and
  refused by the decoder with `Fail` (`RoundTrip.RepeatedNameDocument`);
- the crate's own round-trip tests and a byte-exact little-endian document
  (`Fixtures`).

Modules and files:

| file | module | contents |
|---|---|---|
| wrappers.dfy | Wrappers | `Option` and `Result` with early return (`:-`), standing in for Rust's `?` |
| errors.dfy | Errors | the error enum of src/errors.rs, and the three nom error kinds the parser can raise |
| bytes.dfy | Bytes | integer types, `ByteOrder`, fixed-width two's-complement encoding and decoding in both orders |
| mutf8.dfy | Mutf8 | the well-formedness rule of modified UTF-8, standing in for the foreign `mutf8` crate |
| tag.dfy | Tags | the `Tag` tree, its type-ids, and the `nbt!` wrapper |
| seqs.dfy | Seqs | small sequence facts used by the proofs |
| layout.dfy | Layout | the encoder as functions, and its layout lemmas |
| encoder.dfy | Encoder | the encoder as methods with loops |
| grammar.dfy | Grammar | the decoder as functions, and its decoding lemmas |
| parser.dfy | Parser | the decoder as methods with loops |
| roundtrip.dfy | RoundTrip | the round trip, and why empty lists cannot make it |
| extension.dfy | Extension | the decoder is stable under appended input |
| fixtures.dfy | Fixtures | the test trees of src/parser.rs and one byte-exact document |

Modelling choices:

- **Text.** Names and strings are held as their modified-UTF-8 bytes, so
  `mutf8::encode` is the identity. `mutf8::decode` is modelled as succeeding
  exactly on the bytes that `Mutf8.Valid` accepts. Those are the strict
  modified-UTF-8 units: 0x01..0x7F, two bytes for U+0080..U+07FF and `C0 80`
  for U+0000, three bytes for the other non-surrogate code points of the Basic
  Multilingual Plane, and a pair of three-byte surrogates for the others.
  Overlong forms, raw 0x00 and lone surrogates are refused. `Mutf8.Decode`
  gives the code points, and `Mutf8.DecodeInjective` proves that it is
  injective on valid text.
- **Floats.** `Float` and `Double` carry their IEEE bit patterns as `u32` and
  `u64`.
- **`ByteOrder::bytes`.** Its source is not part of this model. It is written as
  `Bytes.Encode`: exactly `w` bytes of the two's-complement value, most or least
  significant first. nom's `be_*`/`le_*` readers are `Grammar.ReadUnsigned` and
  `Grammar.ReadSigned`; they fail with `Eof` on short input.
- **Encoder errors.** The shown encoder returns `Vec<u8>` and panics through
  `expect`. The crate's tests call a `to_bytes` that returns a `Result`
  (src/parser.rs:479), and `Layout.ToBytes` is that function. Each panic becomes
  the error of src/errors.rs that names it:
  - a missing name: `MissingName`;
  - a name or string over 65535 bytes: `StringTooBig`;
  - a list or array over 2^31 - 1 elements: `ListTooBig`, `ByteArrayTooBig`,
    `IntArrayTooBig`, `LongArrayTooBig`.

  The first error met, in the order of the Rust code, is the result.
- **Decoder errors.** The parser uses nom's *complete* combinators.
  - Input that runs out gives `ParseError(Eof)`. The crate's error type has a
    variant `Error::Incomplete` ("NBT is incomplete", src/errors.rs:27-28) for
    this, but complete combinators never produce it, so the code is followed
    here.
  - A type-id outside the admitted set, or no byte where a type-id belongs,
    gives `ParseError(OneOf)`.
  - Invalid modified UTF-8 in a name and a repeated sibling name
    (src/parser.rs:316-318) give `ParseError(Fail)`.
  - The `.expect("TODO")` panic on an invalid string payload
    (src/parser.rs:198) is modelled as `ParseError(Fail)` as well.
- **Counted loops.** `for _ in 0..length` over a signed 32-bit `length` runs
  `max(length, 0)` times. The imperative loops count down the elements left,
  and each is a method of its own (`Parser.ArrayElements`,
  `Parser.ListElements`).
- **Duplicate names.** They are compared as byte strings. The Rust code
  compares the decoded `String`s. The two comparisons agree, because decoding
  is injective on valid text (`Mutf8.DecodeInjective`).

## Model

| member | source | states |
|---|---|---|
| Mutf8.CodePoint | src/parser.rs:28-30 | each well-formed unit stands for one code point in its width's range: 1 byte U+0001..U+007F, 2 bytes U+0000 or U+0080..U+07FF, 3 bytes U+0800..U+FFFF without the surrogates, 6 bytes U+10000..U+10FFFF |
| Mutf8.UnitDetermined | src/parser.rs:28-30 | two well-formed units with the same code point have the same width and the same bytes |
| Mutf8.DecodeInjective | src/parser.rs:316 | two well-formed texts that decode to the same code points are the same bytes, so comparing decoded names is comparing their bytes |
| Mutf8.AsciiValid | src/parser.rs:28-30 | text of bytes 0x01..0x7F is well formed |
| Tags.Id | src/tag.rs:90-107 | the twelve variants get the ids Byte = 1 through LongArray = 12, each id belonging to exactly one variant |
| Tags.IdsDistinguishVariants | src/tag.rs:90-107 | two tags have the same id exactly when they are of the same variant |
| Tags.Nbt | src/tag.rs:202-207 | `nbt!` is a compound named by the empty string whose children are exactly the given tags (its round trip is RoundTrip.WrapperRoundTrip) |
| Bytes.UnsignedRoundTrip | src/parser.rs:13-24 | an unsigned value below 256^w, written in `w` bytes in either order, decodes back to itself |
| Bytes.SignedRoundTrip | src/parser.rs:60-65 | a signed `w`-byte value, written in two's complement in either order, decodes back to itself |
| Bytes.EncodeDecoded | src/parser.rs:13-24 | any `w` bytes are the encoding of the number they decode to, so reading never loses information |
| Bytes.LittleIsReversedBig | src/byte_order.rs:1-6 | the little-endian bytes of a value are its big-endian bytes in reverse |
| Bytes.SingleByte | src/tag.rs:92-104 | a one-byte value is written as itself in both byte orders, so type-ids do not depend on the order |
| Bytes.SpanIsProduct | src/tag.rs:167-169 | `n` elements of width `w` take `n * w` bytes |
| Layout.BytesId | src/tag.rs:90-107 | the id part is the single byte `Id(t)`, in either byte order |
| Layout.LengthPrefixed | src/tag.rs:81-83 | a length-prefixed text is `2 + len` bytes: a 16-bit length that decodes to `len`, then exactly the text |
| Layout.BytesName | src/tag.rs:64-87 | fails with MissingName exactly when the name is absent, and with StringTooBig when it exceeds 65535 bytes; otherwise a 16-bit length decoding to the name's length, followed by exactly the name |
| Layout.ToBytesLayout | src/tag.rs:50-59 | `as_bytes` succeeds exactly when the name and the payload do; it is then id ++ name ++ payload, so its first byte is the id; a name error is the result |
| Layout.ScalarPayload | src/tag.rs:113-118 | a fixed-width payload always encodes, at exactly its width (1, 2, 4, 8, 4 and 8 bytes for Byte, Short, Int, Long, Float and Double), and its bytes decode to the tag's value or bit pattern |
| Layout.ElementsLength | src/tag.rs:126-128 | the elements of an array take `n * w` bytes |
| Layout.ElementAt | src/tag.rs:126-128 | element `k` sits at bytes `k*w .. (k+1)*w` of the element area and is the encoding of `xs[k]` |
| Layout.ElementsCons | src/tag.rs:126-128 | one more element in front puts its encoding in front of the others |
| Layout.ArrayPayload | src/tag.rs:120-129 | an array payload fails, with the array's own error, exactly when it has more than 2^31 - 1 elements; otherwise it is `4 + n*w` bytes whose first 4 decode to `n` |
| Layout.ArrayPayloadOf | src/tag.rs:161-181 | byte, int and long arrays all use that layout, at widths 1, 4 and 8, with ByteArrayTooBig, IntArrayTooBig and LongArrayTooBig |
| Layout.ArrayLayout | src/tag.rs:120-129 | for each array variant (the int and long arrays at 161-181 too): the error cases, the total length `4 + n*w`, the count, and that bytes `4 + k*w .. 4 + (k+1)*w` decode to element `k` |
| Layout.ArrayElementAt | src/tag.rs:126-128 | within an encoded array payload, bytes `4 + k*w .. 4 + (k+1)*w` decode to element `k` |
| Layout.StringLayout | src/tag.rs:131-136 | a string payload fails with StringTooBig exactly when the text exceeds 65535 bytes; otherwise a 16-bit length equal to the text's byte length, followed by exactly the text |
| Layout.ListLayout | src/tag.rs:138-152 | a list over 2^31 - 1 elements fails with ListTooBig. An empty list is exactly the 4-byte count 0, with no id. A non-empty list is the first element's id, a 4-byte count equal to the element count, then the element payloads |
| Layout.PayloadIgnoresName | src/tag.rs:149-151 | a payload does not depend on the tag's name, so list elements' names are never emitted |
| Layout.ElementNamesIgnored | src/tag.rs:149-151 | renaming list elements leaves the list's element bytes unchanged |
| Layout.CompoundLayout | src/tag.rs:154-159 | a compound payload succeeds exactly when all children encode; it is then the children's complete encodings followed by one 0 byte, and ends in 0 |
| Layout.UnnamedChildFails | src/tag.rs:155-157 | a compound with an unnamed child cannot be encoded |
| Encoder.ExtendElements | src/tag.rs:126-128 | the element loop appends exactly the elements' encodings to the buffer |
| Encoder.BytesArray | src/tag.rs:120-129 | the imperative array encoder returns exactly the array payload layout (also for 161-181) |
| Encoder.BytesList | src/tag.rs:138-152 | the imperative list encoder, header then loop over the element payloads, returns exactly the list layout |
| Encoder.BytesCompound | src/tag.rs:154-159 | the imperative compound encoder, loop over the children then the end byte, returns exactly the compound layout |
| Encoder.BytesPayload | src/tag.rs:110-184 | the imperative payload encoder returns exactly `Layout.Payload` for every variant |
| Encoder.AsBytes | src/tag.rs:50-59 | the imperative `as_bytes` returns exactly `Layout.ToBytes` |
| Grammar.ReadUnsigned | src/parser.rs:13-24 | an unsigned `w`-byte read fails with Eof exactly when fewer than `w` bytes remain; otherwise it consumes exactly `w` bytes and yields a value below 256^w |
| Grammar.ReadSigned | src/parser.rs:60-65 | a signed read: Eof exactly on short input; otherwise exactly `w` bytes consumed and a value in the signed `w`-byte range |
| Grammar.ReadEncodes | src/parser.rs:13-24 | the bytes a number reader consumes are exactly the encoding of the number it returns |
| Grammar.ReadId | src/parser.rs:36-48 | `id` succeeds exactly on a first byte in 1..12, or 0 when the end tag is allowed; it consumes exactly that byte; otherwise OneOf |
| Grammar.ReadText | src/parser.rs:12-34 | `name` fails with Eof when the length or the announced bytes are missing. When they are all there, it succeeds exactly when the announced bytes are well formed, returning exactly those bytes and what follows, and otherwise fails with Fail |
| Grammar.ReadTextConsumed | src/parser.rs:12-34 | on success `name` consumed exactly the length-prefixed text it returned |
| Grammar.StringPayloadAsWritten | src/parser.rs:190-200 | `string_payload` as written takes `min(len, remaining)` bytes and succeeds whenever they are valid text |
| Grammar.StringPayloadAgrees | src/parser.rs:190-200 | when the input holds all announced bytes, `string_payload` as written and the corrected reader agree |
| Grammar.StringPayload | src/parser.rs:190-200 | a string payload read by either reader fails only with Eof or Fail, and Eof on fewer than 2 bytes; on success it is well-formed text of at most the announced length, and the input is exactly the length, the text and what follows |
| Grammar.TruncatedString | src/parser.rs:197 | on length 5 followed by 4 bytes, `string_payload` as written returns the 4 bytes, while the corrected reader fails with Eof |
| Grammar.ArrayElements | src/parser.rs:168-176 | the counted array loop only fails with Eof; on success it yields exactly `n` values, each in the element's range |
| Grammar.ArrayElementsRead | src/parser.rs:168-176 | on success the bytes the array loop consumed are exactly the encodings of the values it returned |
| Grammar.ArrayElementsSpan | src/parser.rs:168-176 | the array loop succeeds exactly when `n*w` bytes remain, and then consumes exactly those |
| Grammar.ArrayPayload | src/parser.rs:162-178 | an array reader fails with Eof on fewer than 4 bytes and on short input; on success it returns `max(count, 0)` elements, `count` being the signed 32-bit count read first |
| Grammar.ArrayPayloadRead | src/parser.rs:162-178 | on success an array reader (also int and long arrays, 399-443) consumed exactly the count followed by the encodings of the elements it returned |
| Grammar.ArrayPayloadSpan | src/parser.rs:162-178 | an array reader (also int and long arrays, 399-443) succeeds exactly when `4 + max(count, 0) * w` bytes are there, and consumes exactly those |
| Grammar.Payload | src/parser.rs:321-383 | the payload reader for type-id `id`, with either string reader, returns a tag of that variant with the given name, and consumes at least one byte |
| Grammar.ListPayload | src/parser.rs:212-290 | `list_payload` fails with OneOf on a missing or zero or out-of-range element id; on success it returns `max(count, 0)` elements |
| Grammar.ListElements | src/parser.rs:222-287 | the counted list loop yields `max(n, 0)` elements and consumes no more than it was given |
| Grammar.ListElementsShape | src/parser.rs:222-287 | every element the list loop returns is unnamed and of the variant the header id selects |
| Grammar.ListPayloadShape | src/parser.rs:212-290 | every element `list_payload` returns is unnamed and has the header's type-id |
| Grammar.CompoundPayload | src/parser.rs:302-387 | `compound_payload` stops at the first 0 id without reading a name, fails with OneOf on a missing or out-of-range id, and fails with Fail when the next child's name was already seen (316-318) |
| Grammar.CompoundShape | src/parser.rs:302-387 | every child `compound_payload` returns is named, no child repeats a name seen before, and no two children share a name |
| Grammar.Nbt | src/parser.rs:445-468 | `nbt` refuses a missing, zero or out-of-range root id with OneOf; on success nothing is left over, the root is named, and its id is the first byte |
| Parser.Id | src/parser.rs:36-48 | the loop that builds the admitted ids, then the check against them, gives exactly `Grammar.ReadId` |
| Parser.ArrayPayload | src/parser.rs:162-178 | the imperative array reader gives exactly `Grammar.ArrayPayload` (also for 399-443) |
| Parser.ArrayElements | src/parser.rs:168-176 | the counted loop that pushes one value per turn gives exactly `Grammar.ArrayElements` |
| Parser.Payload | src/parser.rs:321-383 | the imperative dispatch on the type-id gives exactly `Grammar.Payload` with the string reader as written |
| Parser.ListPayload | src/parser.rs:212-221 | the imperative element-id and count read, then the loop, gives exactly `Grammar.ListPayload` with the string reader as written |
| Parser.ListElements | src/parser.rs:222-287 | the counted loop that pushes one unnamed element per turn gives exactly `Grammar.ListElements` with the string reader as written |
| Parser.CompoundPayload | src/parser.rs:302-387 | the `loop` over ids, names and payloads, tracking the names seen, gives exactly `Grammar.CompoundPayload` with the string reader as written |
| Parser.Nbt | src/parser.rs:445-468 | the imperative `nbt` gives exactly `Grammar.Nbt` with the string reader as written |
| RoundTrip.ReadSignedEncoded | src/parser.rs:60-65 | a signed reader reads back the value it is given the encoding of, leaving what follows |
| RoundTrip.ReadUnsignedEncoded | src/parser.rs:128-133 | an unsigned reader reads back an encoded bit pattern, leaving what follows |
| RoundTrip.ReadTextEncoded | src/parser.rs:12-34 | `name` reads back a length-prefixed writable text, leaving what follows |
| RoundTrip.ArrayElementsEncoded | src/parser.rs:168-176 | the array loop reads back encoded elements |
| RoundTrip.ArrayPayloadEncoded | src/parser.rs:162-178 | an array reader reads back an encoded array of at most 2^31 - 1 elements |
| RoundTrip.PayloadRoundTrip | src/parser.rs:321-383 | the payload of every encodable tag encodes and reads back as the tag, leaving what follows |
| RoundTrip.ListRoundTrip | src/parser.rs:212-290 | a non-empty homogeneous list of unnamed encodable elements reads back as its elements |
| RoundTrip.ElementsRoundTrip | src/parser.rs:222-287 | the list loop reads back encoded unnamed elements of the header's type |
| RoundTrip.CompoundRoundTrip | src/parser.rs:302-387 | a compound of named, encodable, distinctly named children reads back as its children |
| RoundTrip.ChildrenRoundTrip | src/parser.rs:305-384 | the compound loop reads back complete encoded children followed by the end byte |
| RoundTrip.TagRoundTrip | src/tag.rs:50-59 | a complete named tag is id, name and payload, and the name and payload read back |
| RoundTrip.RoundTrip | src/parser.rs:445-468 | every document (named, with writable text, bounded sizes, non-empty homogeneous unnamed lists, named and distinct compound children) encodes, and `nbt` decodes its bytes to the same tree with nothing left over, in both byte orders and with either string reader |
| RoundTrip.StringPayloadEncoded | src/parser.rs:190-200 | both string readers read back a length-prefixed writable text, leaving what follows |
| RoundTrip.ChildrenEncode | src/tag.rs:154-159 | named, encodable children always encode |
| RoundTrip.RepeatedNameRefused | src/parser.rs:316-318 | when named, encodable children repeat a name among themselves or one already seen, the compound loop refuses their bytes with Fail |
| RoundTrip.RepeatedNameDocument | src/parser.rs:316-318 | a named root compound whose named, encodable children repeat a name is written by the encoder, and `nbt` refuses its bytes with Fail |
| RoundTrip.WrapperRoundTrip | src/tag.rs:202-207 | `nbt!` over named, encodable, distinctly named children encodes and decodes back to itself |
| RoundTrip.EmptyListFails | src/tag.rs:138-146 | a named empty list encodes as its id, its name and a zero count, and `nbt` refuses these bytes with OneOf (the decoder wants an element id at src/parser.rs:214) |
| Extension.ReadUnsignedExtends | src/parser.rs:13-24 | appending bytes after the input of a successful unsigned read leaves the value alone and extends what it leaves |
| Extension.ReadSignedExtends | src/parser.rs:60-65 | the same for the signed readers |
| Extension.ReadIdExtends | src/parser.rs:36-48 | the same for `id` |
| Extension.ReadTextExtends | src/parser.rs:12-34 | appending bytes after the input of a successful `name` leaves its result alone and extends what it leaves |
| Extension.ArrayElementsExtends | src/parser.rs:168-176 | the same for the counted array loop |
| Extension.ArrayPayloadExtends | src/parser.rs:162-178 | the same for the array readers |
| Extension.PayloadExtends | src/parser.rs:321-383 | the same for the payload readers of all twelve types, with the corrected string reader |
| Extension.ListPayloadExtends | src/parser.rs:212-290 | the same for `list_payload`, with the corrected string reader |
| Extension.ListElementsExtends | src/parser.rs:222-287 | the same for the counted list loop, with the corrected string reader |
| Extension.CompoundExtends | src/parser.rs:302-387 | the same for `compound_payload`, with the corrected string reader |
| Extension.AsWrittenAcceptsPrefix | src/parser.rs:197 | with the string reader as written, `nbt` accepts, in big-endian, both the root string `08 00 00 00 05` "hello" and its strict prefix that stops after "hell", so the string payload is not stable under appended bytes; the corrected reader refuses the prefix with Eof |
| Extension.TrailingBytesRejected | src/parser.rs:466 | a document followed by one or more bytes is refused with Eof by the final `eof`, with the corrected string reader |
| Extension.PrefixRejected | src/parser.rs:445-468 | no strict prefix of a document decodes, with the corrected string reader |
| Fixtures.ScalarTests | src/parser.rs:474-538 | the tests `byte` through `double` hold in both byte orders: "foo" with 42, and with the bit patterns of 42.69 |
| Fixtures.ArrayTests | src/parser.rs:540-549 | the tests `byte_array`, `int_array` and `long_array` (594-614) hold in both byte orders |
| Fixtures.StringTest | src/parser.rs:551-560 | the test `string` ("Hello World") holds in both byte orders |
| Fixtures.ListTest | src/parser.rs:562-574 | the test `list` (three unnamed bytes) holds in both byte orders |
| Fixtures.CompoundTest | src/parser.rs:576-592 | the test `compound` (bytes "x", "y", "z") holds in both byte orders |
| Fixtures.DuplicateNameTest | src/parser.rs:316-318 | a compound "foo" with two bytes both named "x" encodes, and `nbt` refuses its bytes with Fail, in both byte orders and with either string reader |
| Fixtures.VersionFixture | src/tag.rs:202-207 | `nbt!(Int("format_version", 1))` in little-endian is exactly the bytes `0A 00 00 03 0E 00` "format_version" `01 00 00 00 00`, and decodes back to itself |

## Left out

- Modified-UTF-8 conversion (the `mutf8` crate) is foreign code. Text is kept
  in its encoded form, and decoding is the strict well-formedness predicate
  `Mutf8.Valid` with the code points of `Mutf8.Decode`. If the crate accepts
  more than that (an overlong form, a lone surrogate), that is not modelled.
- The `String` values the Rust decoder builds are not modelled; names and
  strings stay as bytes.
- Float and Double are bit patterns only. No IEEE semantics and no NaN
  comparison: the tree equality of the tests is bit equality here.
- nom's internals: `take`, `one_of`, `eof` and the fixed-width readers are
  written out directly over byte sequences. nom's `Err::Error` and
  `Err::Failure` are one error. The input slice carried inside nom's error is
  not kept.
- `Error::Incomplete` exists in the error type but never arises, because the
  parser uses complete combinators.
- `Tag::from_bytes` is not among the shown files. `Grammar.Nbt` is taken as its
  meaning.
- Rust lifetimes and borrowing in `Tag<'a>`: the tree is a value.
- The `_ => unreachable!()` arms of src/parser.rs: the type-id has already been
  checked, so `Grammar.Payload` requires 1..12.
- src/cli.rs, web/, examples/ and src/lib.rs: argument parsing, file reads,
  wasm and rendering, demos, module wiring. The pretty printer is not part of
  this model.
- RoundTrip.RoundTrip: its precondition excludes empty lists, since they cannot
  round-trip (RoundTrip.EmptyListFails).
- Extension.PayloadExtends: proved for the corrected string reader only. As written, a
  truncated string payload is read shorter, and it does not hold
  (Extension.AsWrittenAcceptsPrefix).
- Extension.ListPayloadExtends: proved for the corrected string reader only. As written, a
  truncated string payload is read shorter, and it does not hold
  (Extension.AsWrittenAcceptsPrefix).
- Extension.ListElementsExtends: proved for the corrected string reader only. As written, a
  truncated string payload is read shorter, and it does not hold
  (Extension.AsWrittenAcceptsPrefix).
- Extension.CompoundExtends: proved for the corrected string reader only. As written, a
  truncated string payload is read shorter, and it does not hold
  (Extension.AsWrittenAcceptsPrefix).
- Extension.TrailingBytesRejected: proved for the corrected string reader
  only. As written, it does not hold: `nbt` accepts the prefix that stops
  after "hell" and also that prefix followed by "o"
  (Extension.AsWrittenAcceptsPrefix).
- Extension.PrefixRejected: proved for the corrected string reader only. As
  written, `nbt` accepts a strict prefix of a document
  (Extension.AsWrittenAcceptsPrefix).
- Layout.ToBytes: `bytes_name` and `bytes_payload` panic in the source; here
  they return the matching error of src/errors.rs.

## Findings

| source | as written | input that shows it | evidently intended | confidence | as-written member | corrected member |
|---|---|---|---|---|---|---|
| src/parser.rs:197 | `string_payload` takes its text with `take_while_m_n(0, length, \|_\| true)`, which takes at most `length` bytes and succeeds on fewer, so a truncated string is read silently shorter | the string payload `00 05 68 65 6C 6C` in big-endian: length 5 followed by the 4 bytes "hell"; read as written it gives "hell" | take exactly `length` bytes and fail with Eof when fewer remain, as `name` does with `take` (src/parser.rs:26) | high, by reading the code; not executed | Grammar.StringPayloadAsWritten, Grammar.TruncatedString, Extension.AsWrittenAcceptsPrefix | Grammar.ReadText, Extension.PrefixRejected |
