# RSV codec, modelled and verified in Dafny

A model of `librsv`, a codec for RSV ("Rows of String Values"). RSV is a binary
tabular format that works like CSV without escapes. Strings are stored as UTF-8.
Three bytes that never occur in valid UTF-8 act as delimiters:

| byte | meaning |
|---|---|
| `0xFD` | row terminator (`END_ROW`) |
| `0xFE` | absent value (`NULL_VALUE`), when it is a value's whole content |
| `0xFF` | value terminator (`END_VALUE`) |

The project has these modules, one per component of `src/lib.rs`:

- `Utf8` (`utf8.dfy`) defines UTF-8 validity: the `UTF8-octets` grammar of section 4
  of RFC 3629, which is what `std::str::from_utf8` accepts. It proves `NoDelimiters`:
  a valid sequence contains none of `0xFD`, `0xFE` or `0xFF`. RFC 3629 section 1 gives
  the reason: octets C0, C1 and F5 to FF never appear in UTF-8. The round trip rests
  on this lemma.
- `Wire` (`wire.dfy`) holds the three constants, the closed `Error` set and `Encode`,
  the byte-exact encoding of a document. The writer and the decoders are both proved
  against `Encode`.
- `Writer` (`writer.dfy`) is `RsvWriter`, a class whose fields are the byte buffer
  and the `startedRow` flag. Its methods update those fields in place. Ghost fields
  record the rows written so far, and `Valid()` ties them to the buffer.
- `Reader` (`reader.dfy`) holds the two cursor-based splitters: `RsvReader::rows` and
  `RsvRow::values`. A borrowed slice is a `Span` of offsets into the input. Each
  splitter is an iterator class with a `remain` cursor and a `Next` method. The method
  is proved against a pure step function (`NextRow`, `NextValue`).
- `Codec` (`codec.dfy`) holds `encode_rsv`, a pair of nested loops that drive the
  writer. It also holds `decode_rsv` and `decode_rsv_borrowed`, modelled as
  `collect` over the iterators' items, together with the short-circuit and
  owned/borrowed agreement lemmas.
- `RoundTrip` (`roundtrip.dfy`) proves the round trip in both directions.
  Decoding an encoded text document gives the document back. A buffer that decodes
  is exactly the encoding of what it decodes to.
- `Scenarios` (`scenarios.dfy`) states the source's examples and its writer/reader
  test about the model, plus one small input for each error.

A borrowed `&str` is a `Span` into the input. An owned `String` is the bytes that
span covers. With that reading, the two decoders return the same structure
(`Codec.DecodeAgreesWithBorrowed`).

## Model

| member | source | states |
|---|---|---|
| Utf8.CharWidth | src/lib.rs:265 | operation: the width of the well-formed character of RFC 3629 section 4 that starts the bytes, 0 if none; at most 4 and never past the end |
| Utf8.Valid | src/lib.rs:265 | operation: what `std::str::from_utf8` accepts, the `UTF8-octets` grammar; its properties are the lemmas below |
| Utf8.NoDelimiters | src/lib.rs:1-3 | a valid UTF-8 sequence contains none of 0xFD, 0xFE, 0xFF |
| Utf8.ValidOctetsPermitted | src/lib.rs:3 | every octet of a valid UTF-8 sequence is one RFC 3629 permits (not C0, C1, F5-FF) |
| Utf8.FirstCharPermitted | src/lib.rs:3 | every octet of a well-formed first character is a permitted octet |
| Utf8.AsciiValid | src/lib.rs:265 | any sequence of ASCII octets is valid UTF-8 |
| Wire.ValueBytes | src/lib.rs:183-186 | operation: the bytes `push` writes for a value, its string or NULL_VALUE |
| Wire.EncodeValue | src/lib.rs:181-188 | operation: the bytes one `push` appends, the value's bytes then END_VALUE |
| Wire.EncodeRow | src/lib.rs:104-108 | operation: the bytes the pushes of one row append |
| Wire.Encode | src/lib.rs:97-111 | operation: the bytes `start_row`, `push` and `finish` emit for a document; the writer, `encode_rsv` and both round trips are proved against it |
| Wire.EncodeRowCons | src/lib.rs:106-108 | helper: a row encodes as its first value's encoding followed by the rest's |
| Wire.EncodeCons | src/lib.rs:104-110 | helper: a document encodes as its first row, END_ROW, then the rest's encoding |
| Wire.EncodeAppend | src/lib.rs:162-168 | encoding takes concatenation of documents to concatenation of bytes |
| Wire.ValueHasNoTerminator | src/lib.rs:181-188 | the content bytes of a text value hold neither END_VALUE nor END_ROW |
| Wire.RowHasNoRowTerminator | src/lib.rs:181-188 | the encoding of a text row holds no END_ROW |
| Writer.RsvWriter.New | src/lib.rs:151-153 | a new writer has an empty buffer, no row started and no rows written |
| Writer.RsvWriter.WithBuffer | src/lib.rs:163-168 | the writer keeps the given buffer and starts with no row started, whatever the buffer holds |
| Writer.RsvWriter.StartRow | src/lib.rs:173-178 | appends exactly one END_ROW iff a row was started; afterwards a row is started and the written rows gain one empty row |
| Writer.RsvWriter.Push | src/lib.rs:181-188 | requires a started row; appends the string's bytes or NULL_VALUE, then END_VALUE; the value joins the open row; nothing else changes |
| Writer.RsvWriter.PushStr | src/lib.rs:191-193 | the same as Push(Some(value)) |
| Writer.RsvWriter.PushNull | src/lib.rs:196-198 | the same as Push(None): appends NULL_VALUE, END_VALUE |
| Writer.RsvWriter.Finish | src/lib.rs:201-207 | returns the buffer plus the owed END_ROW; this equals the initial buffer followed by the encoding of every row written |
| Writer.FinishFresh | src/lib.rs:163-168 | finishing a writer with no row started returns its initial buffer unchanged |
| Reader.Position | src/lib.rs:233 | the offset found lies inside the scanned slice |
| Reader.PositionFirst | src/lib.rs:233 | the found offset holds the terminator and none precedes it; none is found iff the terminator does not occur |
| Reader.PositionOfFirst | src/lib.rs:258 | a terminator with none before it is the one position finds |
| Reader.NextRow | src/lib.rs:228-239 | a pull keeps the cursor inside the input; a yielded row is the span from the old cursor to just before the new one |
| Reader.NextRowCases | src/lib.rs:228-239 | empty remainder ends; otherwise the row is the bytes before the first END_ROW (which hold no END_ROW) and the cursor moves past it; with no END_ROW left the pull is UnterminatedRow and the cursor stays put |
| Reader.DecodeValue | src/lib.rs:263-266 | a decoded string borrows exactly the value's span |
| Reader.DecodeValueCases | src/lib.rs:263-266 | exactly [NULL_VALUE] gives None; valid UTF-8 gives Some(span); anything else gives BadUtf8, each as an iff |
| Reader.NextValue | src/lib.rs:253-267 | a pull keeps the cursor inside the row; any item but UnterminatedValue advances the cursor |
| Reader.NextValueCases | src/lib.rs:253-267 | empty row remainder ends; otherwise the span before the first END_VALUE is decoded and the cursor moves past it; with no END_VALUE left the pull is UnterminatedValue and the cursor stays put |
| Reader.RowErrorRepeats | src/lib.rs:233-235 | after UnterminatedRow the next pull yields the same error again |
| Reader.ValueErrorRepeats | src/lib.rs:258-260 | after UnterminatedValue the next pull yields the same error again |
| Reader.NextRowOk | src/lib.rs:233-238 | a row the row scanner yields ends just before an END_ROW |
| Reader.RowItemsHead | src/lib.rs:233-238 | when the first row item is Ok, its span runs from the cursor to an END_ROW, and the items after it are those read past that END_ROW |
| Reader.RowItemsFirst | src/lib.rs:236-238 | with the first END_ROW at `at`, the rows yielded are the span before it and then the rows after it |
| Reader.ValueItemsFirst | src/lib.rs:261-266 | with the first END_VALUE at `at`, the values yielded are the decoded span and, unless it failed, the values after it |
| Reader.RowItems | src/lib.rs:226-239 | operation: the items `RsvReader::rows` yields, up to and including the first error (always UnterminatedRow) |
| Reader.ValueItems | src/lib.rs:251-267 | operation: the items `RsvRow::values` yields, up to and including the first error of any kind, which is where `collect` stops |
| Reader.RowIter.constructor | src/lib.rs:222-228 | the rows iterator starts with its cursor on the whole input |
| Reader.RowIter.Next | src/lib.rs:229-239 | one pull is the step NextRow from the old cursor; the items up to the first error from the old cursor are the item returned followed, when it is a row, by those from the new cursor |
| Reader.ValueIter.constructor | src/lib.rs:247-253 | the values iterator starts with its cursor on the whole row |
| Reader.ValueIter.Next | src/lib.rs:254-267 | one pull is the step NextValue from the old cursor, so after a BadUtf8 the cursor is past the bad value and later pulls go on; the items up to the first error from the old cursor are the item returned followed, when it is Ok, by those from the new cursor |
| Codec.PushValues | src/lib.rs:106-108 | pushing each value of a row in order appends that row to the open row and changes nothing else |
| Codec.EncodeRsv | src/lib.rs:97-111 | the buffer returned is the byte-exact encoding of the rows |
| Codec.Collect | src/lib.rs:128-130 | operation: `collect::<Result<Vec<_>, _>>()`, every value when all items are Ok, else the first error; stated by CollectOk and CollectFirstError |
| Codec.Resolve | src/lib.rs:127 | operation: `v.to_string()` on a borrowed value, the bytes its span covers |
| Codec.OwnedValues | src/lib.rs:126-127 | operation: the values iterator's items with each string copied out |
| Codec.OwnedRow | src/lib.rs:125-128 | operation: the closure that collects one row's owned values |
| Codec.OwnedRows | src/lib.rs:123-129 | operation: the rows iterator's items, each mapped through that closure |
| Codec.BorrowedRow | src/lib.rs:138 | operation: the closure that collects one row's borrowed values |
| Codec.BorrowedRows | src/lib.rs:136-138 | operation: the rows iterator's items, each mapped through the borrowed closure |
| Codec.Decode | src/lib.rs:122-131 | operation: `decode_rsv`, the collect of the owned rows; stated by DecodeEncode, EncodeDecode, DecodeIsText and DecodeFirstError |
| Codec.DecodeBorrowed | src/lib.rs:135-140 | operation: `decode_rsv_borrowed`, the collect of the borrowed rows; stated by DecodeAgreesWithBorrowed and DecodeBorrowedIsText |
| Codec.CollectCons | src/lib.rs:128-130 | helper: collecting looks at the first item and reads the rest only when it is Ok |
| Codec.CollectOk | src/lib.rs:128-130 | collecting succeeds iff every item is Ok, and then returns every value in order |
| Codec.CollectAllOk | src/lib.rs:128-130 | collecting items that are all Ok returns their values in order |
| Codec.CollectFirstError | src/lib.rs:128-130 | a failed collect returns the first error; every item before it is Ok |
| Codec.Whole | src/lib.rs:222-228 | helper: the reader's first cursor covers exactly the whole input |
| Codec.OwnedValuesFollowIterator | src/lib.rs:126-127 | the owned value items are the values iterator's items with each string copied out |
| Codec.OwnedValuesAgree | src/lib.rs:126-138 | the owned and borrowed collections of a row's values agree from any cursor |
| Codec.OwnedRowAgrees | src/lib.rs:126-138 | a row decodes in the owned form iff it does in the borrowed form, with the same error otherwise |
| Codec.OwnedRowsAgree | src/lib.rs:122-140 | the owned and borrowed collections of rows agree from any cursor |
| Codec.DecodeAgreesWithBorrowed | src/lib.rs:122-140 | decode_rsv and decode_rsv_borrowed both succeed or fail with the same error; each owned string is the bytes of its borrowed view |
| Codec.OwnedValuesText | src/lib.rs:265 | every string value decoded from a row is valid UTF-8 |
| Codec.OwnedRowsText | src/lib.rs:265 | every row decoded from a cursor holds only text values |
| Codec.DecodeIsText | src/lib.rs:122-131 | every value decode_rsv returns is valid UTF-8 |
| Codec.DecodeBorrowedIsText | src/lib.rs:135-140 | every string decode_rsv_borrowed returns is a view into the input whose bytes are valid UTF-8 |
| Codec.OwnedRowsFollowIterator | src/lib.rs:123-130 | the owned rows are the rows iterator's items, each row decoded, an error being UnterminatedRow |
| Codec.DecodeFirstError | src/lib.rs:122-131 | a failing decode returns the error of the first failing row pull; every earlier row decodes |
| Codec.RowFirstError | src/lib.rs:126-128 | a failing row returns the first failing value's error; every earlier value decodes |
| RoundTrip.OwnedValuesFirst | src/lib.rs:258-266 | with the first END_VALUE at `at`, the owned values are the decoded span then, unless it failed, the values after it |
| RoundTrip.OwnedRowsFirst | src/lib.rs:233-238 | with the first END_ROW at `at`, the owned rows are the decoded row before it then the rows after it |
| RoundTrip.EncodeRowLayout | src/lib.rs:106-108 | the encoding of a row lays out each value's content bytes, each followed by END_VALUE |
| RoundTrip.FirstValueAt | src/lib.rs:253-266 | when a text value's content bytes and END_VALUE start the row remainder, the owned values are that value then the values after the END_VALUE |
| RoundTrip.ValuesOfLayout | src/lib.rs:252-268 | values laid out one after another, each followed by END_VALUE, decode back to exactly those values, all Ok |
| RoundTrip.RowOfLayout | src/lib.rs:126-128 | a row span laying out text values decodes to those values |
| RoundTrip.RowOfEncoding | src/lib.rs:126-128 | the bytes of an encoded text row decode to that row |
| RoundTrip.SplitEncoding | src/lib.rs:104-110 | the encoding of a non-empty document is its first row's encoding, END_ROW, then the rest's encoding |
| RoundTrip.RowBoundary | src/lib.rs:104-110 | in an encoded text document the first row's bytes hold no END_ROW and are followed by END_ROW and the rest's encoding |
| RoundTrip.RowItemsOfChain | src/lib.rs:228-239 | over spans laid out one after another, each ending at an END_ROW and holding none, the rows iterator yields exactly those spans |
| RoundTrip.ChainOfEncoding | src/lib.rs:104-110 | the row spans of an encoded text document lie one after another, each ending at an END_ROW and holding none |
| RoundTrip.RowItemsOfEncoding | src/lib.rs:228-239 | the rows iterator over an encoded text document yields exactly the spans of its rows, every one Ok |
| RoundTrip.RowSpansHold | src/lib.rs:104-110 | each row span of an encoded document holds that row's encoding |
| RoundTrip.RowSpansDecode | src/lib.rs:126-128 | each row span of an encoded text document decodes to its row |
| RoundTrip.RowsOfEncoding | src/lib.rs:122-131 | the rows of an encoded text document decode back to the document |
| RoundTrip.DecodeEncode | src/lib.rs:17-25 | decode_rsv(encode_rsv(rows)) == Ok(rows) for every document of text values |
| RoundTrip.EncodeOfDecodedValue | src/lib.rs:263-266 | helper: a decoded value re-encodes to its span and END_VALUE |
| RoundTrip.SplitDecodedRow | src/lib.rs:253-266 | a non-empty row that decodes splits into its first value's encoding and a rest that decodes alone |
| RoundTrip.EncodeOfValues | src/lib.rs:252-268 | a row that decodes is exactly the encoding of its values |
| RoundTrip.Reassemble | src/lib.rs:104-110 | helper: a row's bytes, END_ROW and the rest's encoding make the encoding of the whole |
| RoundTrip.FirstRowSpan | src/lib.rs:228-239 | when the row items from a non-empty cursor are all Ok, the first is a span from the cursor up to an END_ROW, and the rest are the items read past it |
| RoundTrip.EncodeOfSpans | src/lib.rs:122-131 | row spans the rows iterator yields, each holding a row's encoding, make up exactly the encoding of those rows |
| RoundTrip.EncodeDecode | src/lib.rs:122-131 | a buffer that decodes is exactly the encoding of what it decodes to |
| RoundTrip.DecodedEndsWithRowTerminator | src/lib.rs:69-71 | a buffer that decodes is empty or ends with END_ROW |
| Scenarios.EncodeExample | src/lib.rs:90-95 | the example document encodes to `Hello\xFFworld\xFF\xFD\xFE\xFFasdf\xFF\xFD` |
| Scenarios.EncodeRsvExample | src/lib.rs:90-95 | encode_rsv of the example returns those bytes |
| Scenarios.EncodeNoRows | src/lib.rs:97-111 | encode_rsv of no rows is the empty buffer |
| Scenarios.WriterExample | src/lib.rs:37-41 | start_row, push_str("Hello"), push_null, finish gives `Hello\xFF\xFE\xFF\xFD` |
| Scenarios.DecodeExampleEncoding | src/lib.rs:117 | the decode example's bytes are the encoding of one row of "Hello", "world" |
| Scenarios.DecodeExample | src/lib.rs:117-120 | decode_rsv(`Hello\xFFworld\xFF\xFD`) is one row of "Hello" and "world" |
| Scenarios.TestDocumentRoundTrip | src/lib.rs:294-316 | the test document holds only valid UTF-8 strings, so its encoding reads back as the document |
| Scenarios.WriterReaderTest | src/lib.rs:276-316 | the writer/reader test: the buffer is the test document's encoding and reads back as that document |
| Scenarios.WriterReaderTestAsWritten | src/lib.rs:276-316 | the writer/reader test with its own strings "Hello", "world" and "world 2" decodes to exactly the three rows the test asserts |
| Scenarios.DecodeEmpty | src/lib.rs:230-232 | the empty input decodes to no rows |
| Scenarios.DecodeEmptyRow | src/lib.rs:311-313 | a lone END_ROW decodes to one empty row |
| Scenarios.DecodeNull | src/lib.rs:264 | `\xFE\xFF\xFD` decodes to one row holding an absent value |
| Scenarios.DecodeEmptyString | src/lib.rs:305 | `\xFF\xFD` decodes to one row holding the empty string, not an absent value |
| Scenarios.DecodeUnterminatedRow | src/lib.rs:233-235 | input ending inside a row decodes to UnterminatedRow |
| Scenarios.DecodeUnterminatedValue | src/lib.rs:258-260 | a row ending inside a value decodes to UnterminatedValue |
| Scenarios.BadValueRow | src/lib.rs:265 | a value holding the overlong C0 80 makes its row fail with BadUtf8 |
| Scenarios.DecodeFirstErrorWins | src/lib.rs:122-131 | decoding stops at the bad value and never reaches the unterminated row after it |
| Scenarios.DecodeBorrowedFirstErrorWins | src/lib.rs:135-140 | the borrowed decoder reports the same first error |
| Scenarios.RowsAfterError | src/lib.rs:233-235 | pulling the rows iterator after UnterminatedRow yields the same error again |
| Scenarios.ValuesAfterBadUtf8 | src/lib.rs:261-265 | the values iterator moves past a bad value, so the next pull yields the next value |

## Left out

- Rust ownership and lifetimes: a borrowed `&str` is a `Span` of offsets into the input, and an owned `String` is the bytes it covers. Zero-copy sharing is not modelled.
- The generic `AsRef` parameters of `encode_rsv` (src/lib.rs:97-102): `Codec.EncodeRsv` takes a single sequence of rows of optional byte strings.
- `RsvWriter::with_capacity` (src/lib.rs:156-158): an allocation hint with no effect on the bytes written. The `Clone` and `Default` derives are left out too.
- The `thiserror` display messages (src/lib.rs:69-77): they are text for people, not behaviour.
- The `std::str::Utf8Error` payload of `BadUTF8`: the model's `BadUtf8` carries no offset.
- `std::str::from_utf8` is not modelled as a library call. It is replaced by `Utf8.Valid`, the `UTF8-octets` grammar of section 4 of RFC 3629.
- Printing in the usage example (src/lib.rs:43-54): it is I/O.
- Writer.RsvWriter.Push: a Rust `&str` is always valid UTF-8, but `Push` accepts any bytes, because the writer itself never checks them. The round trip (`RoundTrip.DecodeEncode`) requires every string to be valid UTF-8 instead.
- Writer.RsvWriter.Push: a push before `start_row` is a panic (`assert!`) in the source. Here it is a precondition, so such a call cannot be written.
- `RsvWriter::finish` consumes the writer. The model's `Finish` leaves the object in place, and no later call is made on it.
- Lazy iteration: `Reader.RowItems` and `Reader.ValueItems` list the items only up to and including the first error of any kind, which is where `collect` stops. They do not capture what the iterators yield after it.
- After `UnterminatedRow` or `UnterminatedValue` the iterator repeats that error forever. `Reader.RowErrorRepeats` and `Reader.ValueErrorRepeats` state this.
- After a `BadUTF8` the values iterator goes on with the next value, because its cursor already moved past the bad one (src/lib.rs:261-265). `Reader.ValueIter.Next` models this pull by pull, and `Scenarios.ValuesAfterBadUtf8` shows it.
