/** `RsvWriter`: an append-only state machine over a byte buffer and a flag that
    records whether a row has been started.  The row terminator of a row is owed,
    not written, until the next `StartRow` or `Finish`.

    The ghost fields give the abstract view: `prefix` is the buffer the writer was
    created with, `closed` the rows written since and already terminated (or owed
    their terminator), and `open` the values of the row still being written.
    `Rows()` puts them together as the document written since creation.
 */
module Writer {
  import opened Wire

  class RsvWriter {
    var buffer: seq<byte>
    var startedRow: bool
    /** The buffer the writer was created with. */
    ghost var prefix: seq<byte>
    /** The rows written and already followed by their END_ROW. */
    ghost var closed: Document
    /** The values of the row being written. */
    ghost var open: Row

    ghost predicate Valid()
      reads this
    {
      && (!startedRow ==> closed == [] && open == [])
      && buffer == prefix + Encode(closed) + EncodeRow(open)
    }

    /** The document written since the writer was created. */
    ghost function Rows(): Document
      reads this
    {
      if startedRow then closed + [open] else []
    }

    /** `RsvWriter::new`: an empty buffer. */
    constructor New()
      ensures Valid()
      ensures buffer == [] && !startedRow
      ensures prefix == [] && Rows() == []
    {
      buffer, startedRow := [], false;
      prefix, closed, open := [], [], [];
    }

    /** `RsvWriter::with_buffer`: later output is appended to `existing`; the row
        state starts fresh whatever the buffer holds. */
    constructor WithBuffer(existing: seq<byte>)
      ensures Valid()
      ensures buffer == existing && !startedRow
      ensures prefix == existing && Rows() == []
    {
      buffer, startedRow := existing, false;
      prefix, closed, open := existing, [], [];
    }

    /** Begins a new row, first writing the END_ROW owed to the previous one. */
    method StartRow()
      requires Valid()
      modifies this
      ensures Valid()
      ensures buffer == old(buffer) + (if old(startedRow) then [END_ROW] else [])
      ensures startedRow
      ensures prefix == old(prefix) && Rows() == old(Rows()) + [[]]
      ensures closed == old(Rows()) && open == []
    {
      if startedRow {
        EncodeSnoc(closed, open);
        buffer := buffer + [END_ROW];
        closed := closed + [open];
      }
      startedRow := true;
      open := [];
    }

    /** Pushes a value to the current row: its bytes, or NULL_VALUE when absent,
        then END_VALUE.  Pushing before a row is started is a contract violation
        (an `assert!`).  The bytes are appended whatever they are; that a Rust
        `&str` is valid UTF-8 matters only to the decoder. */
    method Push(value: Value)
      requires Valid() && startedRow
      modifies this
      ensures Valid()
      ensures buffer == old(buffer) + EncodeValue(value)
      ensures startedRow && prefix == old(prefix) && closed == old(closed)
      ensures open == old(open) + [value]
      ensures Rows() == old(closed) + [old(open) + [value]]
    {
      match value {
        case Some(s) => buffer := buffer + s;
        case None => buffer := buffer + [NULL_VALUE];
      }
      buffer := buffer + [END_VALUE];
      EncodeRowSnoc(open, value);
      open := open + [value];
    }

    /** `push_str`: exactly `Push(Some(value))`. */
    method PushStr(value: seq<byte>)
      requires Valid() && startedRow
      modifies this
      ensures Valid()
      ensures buffer == old(buffer) + value + [END_VALUE]
      ensures startedRow && prefix == old(prefix) && closed == old(closed)
      ensures open == old(open) + [Some(value)]
    {
      Push(Some(value));
    }

    /** `push_null`: exactly `Push(None)`. */
    method PushNull()
      requires Valid() && startedRow
      modifies this
      ensures Valid()
      ensures buffer == old(buffer) + [NULL_VALUE, END_VALUE]
      ensures startedRow && prefix == old(prefix) && closed == old(closed)
      ensures open == old(open) + [None]
    {
      Push(None);
    }

    /** Finishes writing: the buffer, with the END_ROW owed to an open row.  This is
        the initial buffer followed by the encoding of every row written. */
    method Finish() returns (out: seq<byte>)
      requires Valid()
      ensures out == buffer + (if startedRow then [END_ROW] else [])
      ensures out == prefix + Encode(Rows())
    {
      out := buffer;
      if startedRow {
        out := out + [END_ROW];
        EncodeSnoc(closed, open);
      }
    }
  }

  /** A writer that has started no row gives back its buffer unchanged. */
  method FinishFresh(existing: seq<byte>) returns (out: seq<byte>)
    ensures out == existing
  {
    var w := new RsvWriter.WithBuffer(existing);
    out := w.Finish();
  }
}
