/** The examples of the source's documentation and its writer/reader test,
    stated about the model, and small inputs that show each error. */
module Scenarios {
  import opened Wire
  import opened Reader
  import opened Writer
  import opened Codec
  import RoundTrip
  import Utf8

  const Hello: seq<byte> := [0x48, 0x65, 0x6C, 0x6C, 0x6F]
  const World: seq<byte> := [0x77, 0x6F, 0x72, 0x6C, 0x64]
  const Asdf: seq<byte> := [0x61, 0x73, 0x64, 0x66]
  /** "world 2" */
  const World2: seq<byte> := [0x77, 0x6F, 0x72, 0x6C, 0x64, 0x20, 0x32]

  /** The document of the `encode_rsv` example. */
  lemma EncodeExample()
    ensures Encode([[Some(Hello), Some(World)], [None, Some(Asdf)]])
         == [0x48, 0x65, 0x6C, 0x6C, 0x6F, 0xFF, 0x77, 0x6F, 0x72, 0x6C, 0x64, 0xFF, 0xFD,
             0xFE, 0xFF, 0x61, 0x73, 0x64, 0x66, 0xFF, 0xFD]
  {
    var r1, r2 := [Some(Hello), Some(World)], [None, Some(Asdf)];
    EncodeRowCons(Some(World), []);
    EncodeRowCons(Some(Hello), [Some(World)]);
    assert EncodeRow(r1) == [0x48, 0x65, 0x6C, 0x6C, 0x6F, 0xFF, 0x77, 0x6F, 0x72, 0x6C, 0x64, 0xFF];
    EncodeRowCons(Some(Asdf), []);
    EncodeRowCons(None, [Some(Asdf)]);
    assert EncodeRow(r2) == [0xFE, 0xFF, 0x61, 0x73, 0x64, 0x66, 0xFF];
    EncodeCons(r2, []);
    EncodeCons(r1, [r2]);
  }

  /** `encode_rsv([["Hello", "world"], [None, "asdf"]])` is
      `Hello\xFFworld\xFF\xFD\xFE\xFFasdf\xFF\xFD`. */
  method EncodeRsvExample() returns (buffer: seq<byte>)
    ensures buffer == [0x48, 0x65, 0x6C, 0x6C, 0x6F, 0xFF, 0x77, 0x6F, 0x72, 0x6C, 0x64, 0xFF, 0xFD,
                       0xFE, 0xFF, 0x61, 0x73, 0x64, 0x66, 0xFF, 0xFD]
  {
    buffer := EncodeRsv([[Some(Hello), Some(World)], [None, Some(Asdf)]]);
    EncodeExample();
  }

  /** `encode_rsv` of no rows is the empty buffer. */
  method EncodeNoRows() returns (buffer: seq<byte>)
    ensures buffer == []
  {
    buffer := EncodeRsv([]);
  }

  /** The writer example: one row holding "Hello" and an absent value. */
  method WriterExample() returns (buffer: seq<byte>)
    ensures buffer == Hello + [END_VALUE, NULL_VALUE, END_VALUE, END_ROW]
  {
    var writer := new RsvWriter.New();
    writer.StartRow();
    writer.PushStr(Hello);
    writer.PushNull();
    buffer := writer.Finish();
  }

  /** The bytes of the `decode_rsv` example are the encoding of one row. */
  lemma DecodeExampleEncoding()
    ensures Encode([[Some(Hello), Some(World)]])
         == [0x48, 0x65, 0x6C, 0x6C, 0x6F, 0xFF, 0x77, 0x6F, 0x72, 0x6C, 0x64, 0xFF, 0xFD]
  {
    var r := [Some(Hello), Some(World)];
    EncodeRowCons(Some(World), []);
    EncodeRowCons(Some(Hello), [Some(World)]);
    assert EncodeRow(r) == [0x48, 0x65, 0x6C, 0x6C, 0x6F, 0xFF, 0x77, 0x6F, 0x72, 0x6C, 0x64, 0xFF];
    EncodeCons(r, []);
  }

  /** `decode_rsv(b"Hello\xFFworld\xFF\xFD")` is one row of "Hello" and "world". */
  lemma DecodeExample()
    ensures Decode([0x48, 0x65, 0x6C, 0x6C, 0x6F, 0xFF, 0x77, 0x6F, 0x72, 0x6C, 0x64, 0xFF, 0xFD])
         == Ok([[Some(Hello), Some(World)]])
  {
    var doc := [[Some(Hello), Some(World)]];
    DecodeExampleEncoding();
    assert DocIsText(doc);
    RoundTrip.DecodeEncode(doc);
  }

  /** The document written by the writer/reader test, with `a`, `b` and `c` in
      place of "Hello", "world" and "world 2": a row of two strings, a row with
      an empty string and absent values, and an empty row. */
  function TestDocument(a: seq<byte>, b: seq<byte>, c: seq<byte>): (r: Document) {
    [[Some(a), Some(b)], [Some([]), None, Some(c), None], []]
  }

  /** The test document holds only text when its three strings are text. */
  lemma TestDocumentIsText(a: seq<byte>, b: seq<byte>, c: seq<byte>)
    requires Utf8.Valid(a) && Utf8.Valid(b) && Utf8.Valid(c)
    ensures DocIsText(TestDocument(a, b, c))
  {
    var doc := TestDocument(a, b, c);
    assert RowIsText(doc[0]) by {
      forall j | 0 <= j < |doc[0]| ensures IsText(doc[0][j]) { }
    }
    assert RowIsText(doc[1]) by {
      assert Utf8.Valid([]);
      forall j | 0 <= j < |doc[1]| ensures IsText(doc[1][j]) { }
    }
  }

  /** Reading back the test document's encoding yields the document. */
  lemma TestDocumentRoundTrip(a: seq<byte>, b: seq<byte>, c: seq<byte>)
    requires Utf8.Valid(a) && Utf8.Valid(b) && Utf8.Valid(c)
    ensures Decode(Encode(TestDocument(a, b, c))) == Ok(TestDocument(a, b, c))
  {
    TestDocumentIsText(a, b, c);
    RoundTrip.DecodeEncode(TestDocument(a, b, c));
  }

  /** The first row of the writer/reader test: `push_str(a)`, `push_str(b)`
      append those two values to the open row. */
  method PushFirstTestRow(w: RsvWriter, a: seq<byte>, b: seq<byte>)
    requires w.Valid() && w.startedRow
    modifies w
    ensures w.Valid() && w.startedRow && w.prefix == old(w.prefix) && w.closed == old(w.closed)
    ensures w.open == old(w.open) + [Some(a), Some(b)]
  {
    w.PushStr(a);
    w.PushStr(b);
  }

  /** The second row of the writer/reader test: `push_str("")`, `push_null()`,
      `push_str(c)`, `push_null()` append those four values to the open row. */
  method PushSecondTestRow(w: RsvWriter, c: seq<byte>)
    requires w.Valid() && w.startedRow
    modifies w
    ensures w.Valid() && w.startedRow && w.prefix == old(w.prefix) && w.closed == old(w.closed)
    ensures w.open == old(w.open) + [Some([]), None, Some(c), None]
  {
    w.PushStr([]);
    w.PushNull();
    w.PushStr(c);
    w.PushNull();
  }

  /** The writing half of the writer/reader test: three rows pushed value by
      value through `start_row`, `push_str` and `push_null`, then `finish`. */
  method WriteTestDocument(a: seq<byte>, b: seq<byte>, c: seq<byte>) returns (buffer: seq<byte>)
    ensures buffer == Encode(TestDocument(a, b, c))
  {
    var doc := TestDocument(a, b, c);
    var w := new RsvWriter.New();
    w.StartRow();
    PushFirstTestRow(w, a, b);
    assert w.open == doc[0];
    w.StartRow();
    assert w.closed == doc[..1];
    PushSecondTestRow(w, c);
    assert w.open == doc[1];
    w.StartRow();
    assert w.closed == doc[..2];
    assert w.Rows() == doc;
    buffer := w.Finish();
  }

  /** The writer/reader test, for any three strings in place of "Hello",
      "world" and "world 2": the writer produces the encoding of the rows it
      was given, and reading that back yields those rows. */
  method WriterReaderTest(a: seq<byte>, b: seq<byte>, c: seq<byte>) returns (buffer: seq<byte>, decoded: Result<Document>)
    requires Utf8.Valid(a) && Utf8.Valid(b) && Utf8.Valid(c)
    ensures buffer == Encode(TestDocument(a, b, c))
    ensures decoded == Ok(TestDocument(a, b, c))
  {
    buffer := WriteTestDocument(a, b, c);
    TestDocumentRoundTrip(a, b, c);
    decoded := Decode(buffer);
  }

  /** The test as written, with "Hello", "world" and "world 2". */
  method WriterReaderTestAsWritten() returns (buffer: seq<byte>, decoded: Result<Document>)
    ensures decoded == Ok([[Some(Hello), Some(World)], [Some([]), None, Some(World2), None], []])
  {
    Utf8.AsciiValid(Hello);
    Utf8.AsciiValid(World);
    Utf8.AsciiValid(World2);
    buffer, decoded := WriterReaderTest(Hello, World, World2);
  }

  /** The empty input is the empty document. */
  lemma DecodeEmpty()
    ensures Decode([]) == Ok([])
  {
  }

  /** A lone END_ROW is one empty row. */
  lemma DecodeEmptyRow()
    ensures Decode([END_ROW]) == Ok([[]])
  {
    assert Encode([[]]) == [END_ROW];
    RoundTrip.DecodeEncode([[]]);
  }

  /** NULL_VALUE alone is an absent value ... */
  lemma DecodeNull()
    ensures Decode([NULL_VALUE, END_VALUE, END_ROW]) == Ok([[None]])
  {
    assert EncodeRow([None]) == [NULL_VALUE, END_VALUE];
    assert Encode([[None]]) == [NULL_VALUE, END_VALUE, END_ROW];
    RoundTrip.DecodeEncode([[None]]);
  }

  /** ... and an empty span is the empty string, not an absent value. */
  lemma DecodeEmptyString()
    ensures Decode([END_VALUE, END_ROW]) == Ok([[Some([])]])
  {
    assert EncodeRow([Some([])]) == [END_VALUE];
    assert Encode([[Some([])]]) == [END_VALUE, END_ROW];
    assert RowIsText([Some([])]);
    RoundTrip.DecodeEncode([[Some([])]]);
  }

  /** Input that ends inside a row. */
  lemma DecodeUnterminatedRow()
    ensures Decode([0x61, END_VALUE]) == Err(UnterminatedRow)
  {
    var data: seq<byte> := [0x61, END_VALUE];
    NextRowCases(data, Span(0, 2));
    assert Bytes(data, Span(0, 2)) == data;
    assert OwnedRows(data, Span(0, 2)) == [Err(UnterminatedRow)];
  }

  /** A row that ends inside a value. */
  lemma DecodeUnterminatedValue()
    ensures Decode([0x61, END_ROW]) == Err(UnterminatedValue)
  {
    var data: seq<byte> := [0x61, END_ROW];
    assert data[0..1] == [0x61];
    RoundTrip.OwnedRowsFirst(data, Span(0, 2), 1);
    NextValueCases(data, Span(0, 1));
    assert Bytes(data, Span(0, 1)) == [0x61];
    assert OwnedValues(data, Span(0, 1)) == [Err(UnterminatedValue)];
    CollectCons(Err(UnterminatedValue), OwnedRows(data, Span(2, 2)));
  }

  /** A row holding an overlong encoding (C0 80), which is not UTF-8, followed
      by an unterminated row. */
  const BadThenUnterminated: seq<byte> := [0xC0, 0x80, END_VALUE, END_ROW, 0x61]

  /** The first row of BadThenUnterminated fails on its value. */
  lemma BadValueRow()
    ensures OwnedRow(BadThenUnterminated, Span(0, 3)) == Err(BadUtf8)
  {
    var data := BadThenUnterminated;
    assert data[0..2] == [0xC0, 0x80];
    RoundTrip.OwnedValuesFirst(data, Span(0, 3), 2);
    assert !Utf8.Valid([0xC0, 0x80]);
    DecodeValueCases(data, Span(0, 2));
  }

  /** Decoding stops at the bad value: the unterminated row after it is never
      reached. */
  lemma DecodeFirstErrorWins()
    ensures Decode(BadThenUnterminated) == Err(BadUtf8)
  {
    var data := BadThenUnterminated;
    assert data[0..3] == [0xC0, 0x80, END_VALUE];
    RoundTrip.OwnedRowsFirst(data, Span(0, 5), 3);
    BadValueRow();
    CollectCons(Err(BadUtf8), OwnedRows(data, Span(4, 5)));
  }

  /** The borrowed decoder reports the same first error. */
  lemma DecodeBorrowedFirstErrorWins()
    ensures DecodeBorrowed(BadThenUnterminated) == Err(BadUtf8)
  {
    DecodeFirstErrorWins();
    DecodeAgreesWithBorrowed(BadThenUnterminated);
  }

  /** The rows iterator repeats `UnterminatedRow` once it has met it. */
  method RowsAfterError() returns (first: Option<Result<Span>>, second: Option<Result<Span>>)
    ensures first == Some(Err(UnterminatedRow)) && second == first
  {
    var data: seq<byte> := [0x61, END_VALUE];
    NextRowCases(data, Span(0, 2));
    assert Bytes(data, Span(0, 2)) == data;
    var rows := new RowIter(data);
    first := rows.Next();
    second := rows.Next();
  }

  /** The values iterator goes on after `BadUtf8`: the cursor has moved past the
      bad value's terminator. */
  method ValuesAfterBadUtf8() returns (first: Option<Result<Option<Span>>>, second: Option<Result<Option<Span>>>)
    ensures first == Some(Err(BadUtf8)) && second == Some(Ok(None))
  {
    var data: seq<byte> := [0xC0, END_VALUE, NULL_VALUE, END_VALUE];
    assert data[0..1] == [0xC0] && data[2..3] == [NULL_VALUE];
    PositionOfFirst(data, Span(0, 4), END_VALUE, 1);
    PositionOfFirst(data, Span(2, 4), END_VALUE, 3);
    assert !Utf8.Valid([0xC0]);
    DecodeValueCases(data, Span(0, 1));
    DecodeValueCases(data, Span(2, 3));
    var values := new ValueIter(data, Span(0, 4));
    first := values.Next();
    assert values.remain == Span(2, 4);
    second := values.Next();
  }
}
