module RoundTrip {
  import opened Wire
  import opened Reader
  import opened Codec
  import Utf8

  /** When the first END_VALUE of a non-empty cursor is at `at`, the owned values
      iterator yields the decoded span before it and, unless that is an error,
      goes on after it. */
  lemma OwnedValuesFirst(data: seq<byte>, remain: Span, at: nat)
    requires remain.Within(data) && remain.lo <= at < remain.hi
    requires data[at] == END_VALUE && END_VALUE !in data[remain.lo..at]
    ensures var x := DecodeValue(data, Span(remain.lo, at));
            && (x.Err? ==> OwnedValues(data, remain) == [Err(x.error)])
            && (x.Ok? ==>
                  OwnedValues(data, remain) == [Ok(Resolve(data, x.value))] + OwnedValues(data, Span(at + 1, remain.hi)))
  {
    PositionOfFirst(data, remain, END_VALUE, at);
    assert NextValue(data, remain) == Step(Some(DecodeValue(data, Span(remain.lo, at))), Span(at + 1, remain.hi));
  }

  /** When the first END_ROW of a non-empty cursor is at `at`, the owned rows
      iterator yields the row before it and goes on after it. */
  lemma OwnedRowsFirst(data: seq<byte>, remain: Span, at: nat)
    requires remain.Within(data) && remain.lo <= at < remain.hi
    requires data[at] == END_ROW && END_ROW !in data[remain.lo..at]
    ensures OwnedRows(data, remain) == [OwnedRow(data, Span(remain.lo, at))] + OwnedRows(data, Span(at + 1, remain.hi))
  {
    PositionOfFirst(data, remain, END_ROW, at);
    assert NextRow(data, remain) == Step(Some(Ok(Span(remain.lo, at))), Span(at + 1, remain.hi));
  }

  /** An empty cursor yields no values. */
  lemma NoValues(data: seq<byte>, remain: Span)
    requires remain.Within(data) && remain.lo == remain.hi
    ensures OwnedValues(data, remain) == []
  {
  }

  /** The values of `row` laid out in `data` from `lo` to `hi`: each value's
      content bytes followed by END_VALUE, one after the other. */
  predicate ValuesAt(data: seq<byte>, lo: nat, hi: nat, row: Row)
    decreases |row|
  {
    && lo <= hi <= |data|
    && if row == [] then lo == hi
       else
         var at := lo + |ValueBytes(row[0])|;
         && at < hi
         && data[lo..at] == ValueBytes(row[0])
         && data[at] == END_VALUE
         && ValuesAt(data, at + 1, hi, row[1..])
  }

  /** A slice made of a part, a separator and the rest holds each of them at the
      matching offset. */
  lemma SliceParts<T>(data: seq<T>, lo: nat, at: nat, hi: nat, part: seq<T>, sep: T, rest: seq<T>)
    requires lo <= hi <= |data| && data[lo..hi] == part + [sep] + rest && at == lo + |part|
    ensures at < hi && data[lo..at] == part && data[at] == sep && data[at + 1..hi] == rest
  {
    assert data[lo..at] == data[lo..hi][..at - lo];
    assert data[at] == data[lo..hi][at - lo];
    assert data[at + 1..hi] == data[lo..hi][at - lo + 1..];
  }

  /** The encoding of a row lays out its values. */
  lemma {:induction false} EncodeRowLayout(data: seq<byte>, lo: nat, hi: nat, row: Row)
    requires lo <= hi <= |data| && data[lo..hi] == EncodeRow(row)
    ensures ValuesAt(data, lo, hi, row)
    decreases |row|
  {
    if row != [] {
      var at := lo + |ValueBytes(row[0])|;
      SliceParts(data, lo, at, hi, ValueBytes(row[0]), END_VALUE, EncodeRow(row[1..]));
      EncodeRowLayout(data, at + 1, hi, row[1..]);
    }
  }

  /** A span holding the content bytes of a text value decodes to that value. */
  lemma DecodeValueBytes(data: seq<byte>, span: Span, v: Value)
    requires span.Within(data) && Bytes(data, span) == ValueBytes(v) && IsText(v)
    ensures DecodeValue(data, span).Ok? && Resolve(data, DecodeValue(data, span).value) == v
  {
    if v.Some? {
      assert Bytes(data, span) != [NULL_VALUE] by {
        Utf8.NoDelimiters(v.value);
      }
    }
  }

  /** When the content bytes of a text value and END_VALUE start at `lo`, the values
      iterator yields that value and goes on after the END_VALUE. */
  lemma FirstValueAt(data: seq<byte>, lo: nat, at: nat, hi: nat, v: Value)
    requires lo <= at < hi <= |data| && data[at] == END_VALUE
    requires data[lo..at] == ValueBytes(v) && IsText(v)
    ensures OwnedValues(data, Span(lo, hi)) == [Ok(v)] + OwnedValues(data, Span(at + 1, hi))
  {
    ValueHasNoTerminator(v);
    DecodeValueBytes(data, Span(lo, at), v);
    OwnedValuesFirst(data, Span(lo, hi), at);
  }

  /** The values iterator over laid-out text values yields every value, each
      `Ok`. */
  lemma {:induction false} ValuesOfLayout(data: seq<byte>, lo: nat, hi: nat, row: Row)
    requires ValuesAt(data, lo, hi, row) && RowIsText(row)
    ensures OwnedValues(data, Span(lo, hi)) == AllOk(row)
    decreases |row|
  {
    if row == [] {
      NoValues(data, Span(lo, hi));
    } else {
      var at := lo + |ValueBytes(row[0])|;
      RowIsTextSplit(row);
      FirstValueAt(data, lo, at, hi, row[0]);
      ValuesOfLayout(data, at + 1, hi, row[1..]);
      ConsAllOk(OwnedValues(data, Span(lo, hi)), OwnedValues(data, Span(at + 1, hi)), row);
    }
  }

  /** A row of laid-out text values decodes to exactly those values. */
  lemma RowOfLayout(data: seq<byte>, lo: nat, hi: nat, row: Row)
    requires ValuesAt(data, lo, hi, row) && RowIsText(row)
    ensures OwnedRow(data, Span(lo, hi)) == Ok(row)
  {
    ValuesOfLayout(data, lo, hi, row);
    CollectAllOk(row);
  }

  /** A slice holding the encoding of a text row decodes to that row. */
  lemma RowOfEncoding(data: seq<byte>, lo: nat, hi: nat, row: Row)
    requires lo <= hi <= |data| && data[lo..hi] == EncodeRow(row) && RowIsText(row)
    ensures OwnedRow(data, Span(lo, hi)) == Ok(row)
  {
    EncodeRowLayout(data, lo, hi, row);
    RowOfLayout(data, lo, hi, row);
  }

  /** A slice holding the encoding of a non-empty document holds the encoding of
      its first row, END_ROW, then the encoding of the other rows. */
  lemma SplitEncoding(data: seq<byte>, lo: nat, at: nat, doc: Document)
    requires lo <= |data| && data[lo..|data|] == Encode(doc) && doc != []
    requires at == lo + |EncodeRow(doc[0])|
    ensures at < |data| && data[lo..at] == EncodeRow(doc[0]) && data[at] == END_ROW
    ensures data[at + 1..|data|] == Encode(doc[1..])
  {
    SliceParts(data, lo, at, |data|, EncodeRow(doc[0]), END_ROW, Encode(doc[1..]));
  }

  /** The spans the rows of `doc` occupy in its encoding placed at `lo`: each
      row's bytes, without the END_ROW after them. */
  function RowSpans(lo: nat, doc: Document): (r: seq<Span>)
    ensures |r| == |doc|
    decreases |doc|
  {
    if doc == [] then []
    else
      var at := lo + |EncodeRow(doc[0])|;
      [Span(lo, at)] + RowSpans(at + 1, doc[1..])
  }

  /** In the encoding of a text document, the first row's bytes hold no END_ROW
      and the END_ROW after them is followed by the encoding of the rest. */
  lemma RowBoundary(data: seq<byte>, lo: nat, at: nat, doc: Document)
    requires lo <= |data| && data[lo..|data|] == Encode(doc) && DocIsText(doc) && doc != []
    requires at == lo + |EncodeRow(doc[0])|
    ensures at < |data| && data[at] == END_ROW && END_ROW !in data[lo..at]
    ensures data[at + 1..|data|] == Encode(doc[1..]) && DocIsText(doc[1..])
  {
    SplitEncoding(data, lo, at, doc);
    RowHasNoRowTerminator(doc[0]);
    DocIsTextSplit(doc);
  }

  /** Over rows laid out as a chain, the rows iterator yields exactly their
      spans. */
  lemma {:induction false} RowItemsOfChain(data: seq<byte>, lo: nat, spans: seq<Span>)
    requires lo <= |data| && Chain(data, lo, spans)
    ensures RowItems(data, Span(lo, |data|)) == AllOk(spans)
    decreases |spans|
  {
    if spans != [] {
      var at := spans[0].hi;
      RowItemsFirst(data, Span(lo, |data|), at);
      RowItemsOfChain(data, at + 1, spans[1..]);
    }
  }

  /** The row spans of the encoding of a text document form a chain. */
  lemma {:induction false} ChainOfEncoding(data: seq<byte>, lo: nat, doc: Document)
    requires lo <= |data| && data[lo..|data|] == Encode(doc) && DocIsText(doc)
    ensures Chain(data, lo, RowSpans(lo, doc))
    decreases |doc|
  {
    if doc != [] {
      var at := lo + |EncodeRow(doc[0])|;
      RowBoundary(data, lo, at, doc);
      ChainOfEncoding(data, at + 1, doc[1..]);
      ChainCons(data, lo, at, RowSpans(at + 1, doc[1..]));
      assert RowSpans(lo, doc) == [Span(lo, at)] + RowSpans(at + 1, doc[1..]);
    }
  }

  /** The rows iterator over the encoding of a text document yields exactly the
      spans of its rows. */
  lemma RowItemsOfEncoding(data: seq<byte>, lo: nat, doc: Document)
    requires lo <= |data| && data[lo..|data|] == Encode(doc) && DocIsText(doc)
    ensures RowItems(data, Span(lo, |data|)) == AllOk(RowSpans(lo, doc))
  {
    ChainOfEncoding(data, lo, doc);
    RowItemsOfChain(data, lo, RowSpans(lo, doc));
  }

  /** The span `s` of `data` holds the encoding of `row`. */
  predicate Holds(data: seq<byte>, s: Span, row: Row) {
    s.Within(data) && data[s.lo..s.hi] == EncodeRow(row)
  }

  /** Each row span of the encoding of a document holds the encoding of its row. */
  lemma {:induction false} RowSpansHold(data: seq<byte>, lo: nat, doc: Document)
    requires lo <= |data| && data[lo..|data|] == Encode(doc)
    ensures forall i :: 0 <= i < |doc| ==> Holds(data, RowSpans(lo, doc)[i], doc[i])
    decreases |doc|
  {
    if doc != [] {
      var at := lo + |EncodeRow(doc[0])|;
      var rest := RowSpans(at + 1, doc[1..]);
      assert RowSpans(lo, doc) == [Span(lo, at)] + rest;
      SplitEncoding(data, lo, at, doc);
      RowSpansHold(data, at + 1, doc[1..]);
      assert Holds(data, Span(lo, at), doc[0]);
      forall i | 1 <= i < |doc| ensures Holds(data, RowSpans(lo, doc)[i], doc[i]) {
        ConsIndex(Span(lo, at), rest, i);
        assert Holds(data, rest[i - 1], doc[1..][i - 1]);
      }
    }
  }

  /** Each row span of the encoding of a text document decodes to its row. */
  lemma RowSpansDecode(data: seq<byte>, lo: nat, doc: Document)
    requires lo <= |data| && data[lo..|data|] == Encode(doc) && DocIsText(doc)
    ensures forall i :: 0 <= i < |doc| ==>
              RowSpans(lo, doc)[i].Within(data) && OwnedRow(data, RowSpans(lo, doc)[i]) == Ok(doc[i])
  {
    RowSpansHold(data, lo, doc);
    forall i | 0 <= i < |doc|
      ensures RowSpans(lo, doc)[i].Within(data) && OwnedRow(data, RowSpans(lo, doc)[i]) == Ok(doc[i])
    {
      var s := RowSpans(lo, doc)[i];
      RowOfEncoding(data, s.lo, s.hi, doc[i]);
    }
  }

  /** The owned rows iterator over the encoding of a text document yields every
      row, each `Ok`. */
  lemma RowsOfEncoding(data: seq<byte>, lo: nat, doc: Document)
    requires lo <= |data| && data[lo..|data|] == Encode(doc) && DocIsText(doc)
    ensures OwnedRows(data, Span(lo, |data|)) == AllOk(doc)
  {
    var spans := RowSpans(lo, doc);
    RowItemsOfEncoding(data, lo, doc);
    RowSpansDecode(data, lo, doc);
    OwnedRowsFollowIterator(data, Span(lo, |data|));
    var rows := OwnedRows(data, Span(lo, |data|));
    forall i | 0 <= i < |doc| ensures rows[i] == AllOk(doc)[i] {
      AllOkIndex(spans, i);
      AllOkIndex(doc, i);
    }
  }

  /** `decode_rsv(encode_rsv(rows)) == Ok(rows)` for every document of text
      values: empty strings, empty rows and absent values included, an absent
      value staying distinct from the empty string. */
  lemma DecodeEncode(doc: Document)
    requires DocIsText(doc)
    ensures Decode(Encode(doc)) == Ok(doc)
  {
    var data := Encode(doc);
    assert data[0..|data|] == data;
    RowsOfEncoding(data, 0, doc);
    CollectAllOk(doc);
  }

  /** The encoding of a decoded value is the span it came from with its END_VALUE. */
  lemma EncodeOfDecodedValue(data: seq<byte>, span: Span, x: Option<Span>, w: Value)
    requires span.Within(data) && span.hi < |data| && data[span.hi] == END_VALUE
    requires DecodeValue(data, span) == Ok(x) && w == Resolve(data, x)
    ensures EncodeValue(w) == data[span.lo..span.hi + 1]
  {
    assert data[span.lo..span.hi + 1] == Bytes(data, span) + [END_VALUE];
  }

  /** A non-empty row that decodes splits into its first value and a rest that
      decodes on its own. */
  lemma SplitDecodedRow(data: seq<byte>, row: Span, vals: Row) returns (at: nat, w: Value, rest: Row)
    requires row.Within(data) && row.lo < row.hi && OwnedRow(data, row) == Ok(vals)
    ensures row.lo <= at < row.hi
    ensures EncodeValue(w) == data[row.lo..at + 1]
    ensures OwnedRow(data, Span(at + 1, row.hi)) == Ok(rest) && vals == [w] + rest
  {
    var s := NextValue(data, row);
    NextValueCases(data, row);
    var os := OwnedValues(data, row);
    assert os == [os[0]] + os[1..];
    CollectCons(os[0], os[1..]);
    at := s.remain.lo - 1;
    var x := s.item.value.value;
    w := Resolve(data, x);
    var tail := OwnedValues(data, Span(at + 1, row.hi));
    assert os == [Ok(w)] + tail;
    CollectCons(Ok(w), tail);
    rest := Collect(tail).value;
    EncodeOfDecodedValue(data, Span(row.lo, at), x, w);
  }

  /** A row that decodes is the encoding of its values. */
  lemma {:induction false} EncodeOfValues(data: seq<byte>, row: Span, vals: Row)
    requires row.Within(data) && OwnedRow(data, row) == Ok(vals)
    ensures EncodeRow(vals) == Bytes(data, row)
    decreases row.hi - row.lo
  {
    if row.lo == row.hi {
      assert OwnedValues(data, row) == [];
    } else {
      var at, w, rest := SplitDecodedRow(data, row, vals);
      EncodeOfValues(data, Span(at + 1, row.hi), rest);
      EncodeRowCons(w, rest);
      SliceSplit(data, row.lo, at + 1, row.hi);
    }
  }

  /** A row's bytes, END_ROW and the encoding of the rest make up the encoding of
      the whole. */
  lemma Reassemble(data: seq<byte>, lo: nat, at: nat, r: Row, rest: Document)
    requires lo <= at < |data| && data[at] == END_ROW
    requires data[lo..at] == EncodeRow(r) && data[at + 1..] == Encode(rest)
    ensures Encode([r] + rest) == data[lo..]
  {
    EncodeCons(r, rest);
    SliceSplit(data, lo, at, at + 1);
    SliceSplit(data, lo, at + 1, |data|);
    assert data[at..at + 1] == [END_ROW];
  }

  /** The rows iterator over a non-empty remainder whose items are all `Ok` yields
      first a span at the cursor followed by END_ROW, then goes on after it. */
  lemma FirstRowSpan(data: seq<byte>, lo: nat, spans: seq<Span>)
    requires lo < |data| && RowItems(data, Span(lo, |data|)) == AllOk(spans)
    ensures spans != [] && spans[0].lo == lo && spans[0].hi < |data| && data[spans[0].hi] == END_ROW
    ensures RowItems(data, Span(spans[0].hi + 1, |data|)) == AllOk(spans[1..])
  {
    var items := RowItems(data, Span(lo, |data|));
    AllOkIndex(spans, 0);
    RowItemsHead(data, Span(lo, |data|));
    AllOkCons(spans[0], spans[1..]);
    assert [spans[0]] + spans[1..] == spans;
    assert items[1..] == RowItems(data, Span(spans[0].hi + 1, |data|));
  }

  /** A remainder over which the rows iterator yields the spans `spans`, all `Ok`,
      each holding the encoding of the matching row of `doc`, is the encoding of
      `doc`. */
  lemma {:induction false} EncodeOfSpans(data: seq<byte>, lo: nat, spans: seq<Span>, doc: Document)
    requires lo <= |data| && RowItems(data, Span(lo, |data|)) == AllOk(spans) && |spans| == |doc|
    requires forall i :: 0 <= i < |doc| ==> Holds(data, spans[i], doc[i])
    ensures Encode(doc) == data[lo..]
    decreases |data| - lo
  {
    if lo == |data| {
      assert RowItems(data, Span(lo, |data|)) == [];
    } else {
      FirstRowSpan(data, lo, spans);
      var at := spans[0].hi;
      assert Holds(data, spans[0], doc[0]);
      forall i | 0 <= i < |doc| - 1 ensures Holds(data, spans[1..][i], doc[1..][i]) {
        assert Holds(data, spans[i + 1], doc[i + 1]);
      }
      EncodeOfSpans(data, at + 1, spans[1..], doc[1..]);
      Reassemble(data, lo, at, doc[0], doc[1..]);
      assert [doc[0]] + doc[1..] == doc;
    }
  }

  /** Decoding is exact: a buffer that decodes is the encoding of what it decodes
      to, so no input decodes except a well-formed one. */
  lemma EncodeDecode(data: seq<byte>, doc: Document)
    requires Decode(data) == Ok(doc)
    ensures Encode(doc) == data
  {
    var whole := Whole(data);
    var rows, items := OwnedRows(data, whole), RowItems(data, whole);
    OwnedRowsFollowIterator(data, whole);
    CollectOk(rows);
    forall i | 0 <= i < |items| ensures items[i].Ok? {
      assert RowDecoded(data, items[i], rows[i]);
    }
    var spans := AllOkOfOks(items);
    forall i | 0 <= i < |doc| ensures Holds(data, spans[i], doc[i]) {
      AllOkIndex(spans, i);
      assert RowDecoded(data, items[i], rows[i]);
      EncodeOfValues(data, spans[i], doc[i]);
    }
    EncodeOfSpans(data, 0, spans, doc);
    assert data[0..] == data;
  }

  /** A buffer that decodes is empty or ends with END_ROW. */
  lemma DecodedEndsWithRowTerminator(data: seq<byte>)
    requires Decode(data).Ok?
    ensures data == [] || data[|data| - 1] == END_ROW
  {
    var doc := Decode(data).value;
    EncodeDecode(data, doc);
    if doc != [] {
      EncodeSnoc(doc[..|doc| - 1], doc[|doc| - 1]);
      assert doc[..|doc| - 1] + [doc[|doc| - 1]] == doc;
    }
  }
}
