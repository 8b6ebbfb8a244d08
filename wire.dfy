/** The RSV wire format: the three reserved bytes, the closed set of decoding
    errors, and the byte-exact encoding of a document, which the writer and the
    decoder are both proved against.

    Grammar: document := row*;  row := value* END_ROW;
             value := (NULL_VALUE | utf8-bytes) END_VALUE.
 */
module Wire {
  import Utf8

  type byte = Utf8.byte

  /** Row termination byte. */
  const END_ROW: byte := 0xFD
  /** Represents an absent value. */
  const NULL_VALUE: byte := 0xFE
  /** Value termination byte. */
  const END_VALUE: byte := 0xFF

  /** An error met while parsing an RSV stream. */
  datatype Error =
    | UnterminatedRow     // the input ended without a row terminator byte
    | UnterminatedValue   // the row ended without a value terminator byte
    | BadUtf8             // a value contained invalid UTF-8

  datatype Option<T> = None | Some(value: T)

  datatype Result<T> = Ok(value: T) | Err(error: Error)

  /** A value is absent (`None`) or the bytes of a string. */
  type Value = Option<seq<byte>>
  type Row = seq<Value>
  type Document = seq<Row>

  /** What Rust's `&str` guarantees: a present value is valid UTF-8. */
  predicate IsText(v: Value) {
    v.Some? ==> Utf8.Valid(v.value)
  }

  predicate RowIsText(row: Row) {
    forall j :: 0 <= j < |row| ==> IsText(row[j])
  }

  predicate DocIsText(doc: Document) {
    forall i :: 0 <= i < |doc| ==> RowIsText(doc[i])
  }

  /** The content bytes of a value: its string, or the null marker. */
  function ValueBytes(v: Value): (r: seq<byte>) {
    match v
    case Some(s) => s
    case None => [NULL_VALUE]
  }

  function EncodeValue(v: Value): (r: seq<byte>) {
    ValueBytes(v) + [END_VALUE]
  }

  /** A row: each value's encoding, in order. */
  function EncodeRow(row: Row): (r: seq<byte>) {
    if row == [] then [] else EncodeValue(row[0]) + EncodeRow(row[1..])
  }

  /** The byte-exact encoding of a document: every row, an empty one included,
      followed by END_ROW. */
  function Encode(doc: Document): (r: seq<byte>) {
    if doc == [] then [] else EncodeRow(doc[0]) + [END_ROW] + Encode(doc[1..])
  }

  /** Encoding a row value by value, front to back. */
  lemma EncodeRowCons(v: Value, row: Row)
    ensures EncodeRow([v] + row) == EncodeValue(v) + EncodeRow(row)
  {
    assert ([v] + row)[1..] == row;
  }

  /** Encoding a document row by row, front to back. */
  lemma EncodeCons(r: Row, doc: Document)
    ensures Encode([r] + doc) == EncodeRow(r) + [END_ROW] + Encode(doc)
  {
    assert ([r] + doc)[1..] == doc;
  }

  /** Appending a value to a row appends its encoding: what `push` does to the
      open row. */
  lemma {:induction false} EncodeRowSnoc(row: Row, v: Value)
    ensures EncodeRow(row + [v]) == EncodeRow(row) + EncodeValue(v)
    decreases |row|
  {
    if row == [] {
      assert row + [v] == [v];
      assert [v][1..] == [];
    } else {
      assert (row + [v])[1..] == row[1..] + [v];
      EncodeRowSnoc(row[1..], v);
    }
  }

  /** Encoding takes document concatenation to byte concatenation. */
  lemma {:induction false} EncodeAppend(a: Document, b: Document)
    ensures Encode(a + b) == Encode(a) + Encode(b)
    decreases |a|
  {
    if a == [] {
      assert a + b == b;
    } else {
      assert (a + b)[0] == a[0];
      assert (a + b)[1..] == a[1..] + b;
      EncodeAppend(a[1..], b);
    }
  }

  /** Appending a row to a document appends its encoding and END_ROW: what
      `start_row` and `finish` do once a row is complete. */
  lemma EncodeSnoc(doc: Document, r: Row)
    ensures Encode(doc + [r]) == Encode(doc) + EncodeRow(r) + [END_ROW]
  {
    EncodeAppend(doc, [r]);
    assert [r][1..] == [];
  }

  /** A text row is a text value followed by a text row. */
  lemma RowIsTextSplit(row: Row)
    requires row != [] && RowIsText(row)
    ensures IsText(row[0]) && RowIsText(row[1..])
  {
    forall j | 0 <= j < |row| - 1 ensures IsText(row[1..][j]) {
      assert row[1..][j] == row[j + 1];
    }
  }

  /** A text document is a text row followed by a text document. */
  lemma DocIsTextSplit(doc: Document)
    requires doc != [] && DocIsText(doc)
    ensures RowIsText(doc[0]) && DocIsText(doc[1..])
  {
    forall i | 0 <= i < |doc| - 1 ensures RowIsText(doc[1..][i]) {
      assert doc[1..][i] == doc[i + 1];
    }
  }

  /** The encoding of a text value holds no END_VALUE before its terminator. */
  lemma ValueHasNoTerminator(v: Value)
    requires IsText(v)
    ensures END_VALUE !in ValueBytes(v) && END_ROW !in ValueBytes(v)
  {
    if v.Some? {
      Utf8.NoDelimiters(v.value);
    }
  }

  /** The encoding of a text row holds no END_ROW, so the row scanner cannot
      split it. */
  lemma {:induction false} RowHasNoRowTerminator(row: Row)
    requires RowIsText(row)
    ensures END_ROW !in EncodeRow(row)
    decreases |row|
  {
    if row != [] {
      RowIsTextSplit(row);
      RowHasNoRowTerminator(row[1..]);
      ValueHasNoTerminator(row[0]);
    }
  }
}
