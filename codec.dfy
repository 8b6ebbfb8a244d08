/** The convenience layer: `encode_rsv` drives the writer, `decode_rsv` and
    `decode_rsv_borrowed` collect the reader's iterators and stop at the first
    error.  Their meaning is tied to the byte-exact encoding `Wire.Encode` in
    both directions.
 */
module Codec {
  import opened Wire
  import opened Reader
  import opened Writer
  import Utf8

  /** The inner loop of `encode_rsv`: one `push` per value of `row`, in order. */
  method PushValues(writer: RsvWriter, row: Row)
    requires writer.Valid() && writer.startedRow
    modifies writer
    ensures writer.Valid() && writer.startedRow
    ensures writer.prefix == old(writer.prefix) && writer.closed == old(writer.closed)
    ensures writer.open == old(writer.open) + row
  {
    for j := 0 to |row|
      invariant writer.Valid() && writer.startedRow
      invariant writer.prefix == old(writer.prefix) && writer.closed == old(writer.closed)
      invariant writer.open == old(writer.open) + row[..j]
    {
      writer.Push(row[j]);
      assert row[..j + 1] == row[..j] + [row[j]];
    }
    assert row[..|row|] == row;
  }

  /** `encode_rsv`: one `start_row` per row and one `push` per value, on a fresh
      writer, then `finish`. */
  method EncodeRsv(rows: Document) returns (out: seq<byte>)
    ensures out == Encode(rows)
  {
    var writer := new RsvWriter.New();
    for i := 0 to |rows|
      invariant writer.Valid() && writer.prefix == [] && writer.Rows() == rows[..i]
    {
      writer.StartRow();
      PushValues(writer, rows[i]);
      assert writer.open == rows[i];
      assert rows[..i + 1] == writer.closed + [writer.open];
    }
    assert rows[..|rows|] == rows;
    out := writer.Finish();
  }

  /** `collect::<Result<Vec<_>, _>>()`: every item unwrapped when all are `Ok`,
      otherwise the first error, and never a partial result. */
  function Collect<T>(items: seq<Result<T>>): (r: Result<seq<T>>)
    decreases |items|
  {
    if items == [] then Ok([])
    else match items[0]
      case Err(e) => Err(e)
      case Ok(x) =>
        match Collect(items[1..])
        case Err(e) => Err(e)
        case Ok(xs) => Ok([x] + xs)
  }

  /** Indexing past the head of a sequence indexes its tail. */
  lemma ConsIndex<T>(x: T, t: seq<T>, i: nat)
    requires 1 <= i <= |t|
    ensures ([x] + t)[i] == t[i - 1]
  {
  }

  /** Collecting looks at the first item, then at the rest only if it is `Ok`. */
  lemma CollectCons<T>(x: Result<T>, rest: seq<Result<T>>)
    ensures Collect([x] + rest) == match x
      case Err(e) => Err(e)
      case Ok(v) => (match Collect(rest)
        case Ok(vs) => Ok([v] + vs)
        case Err(e) => Err(e))
  {
    assert ([x] + rest)[1..] == rest;
  }

  /** Collecting succeeds exactly when every item is `Ok`, and then yields every
      value, in order. */
  lemma {:induction false} CollectOk<T>(items: seq<Result<T>>)
    ensures Collect(items).Ok? <==> forall i :: 0 <= i < |items| ==> items[i].Ok?
    ensures Collect(items).Ok? ==>
              && |Collect(items).value| == |items|
              && (forall i :: 0 <= i < |items| ==> Collect(items).value[i] == items[i].value)
    decreases |items|
  {
    if items != [] {
      var rest := items[1..];
      CollectOk(rest);
      assert forall i :: 1 <= i < |items| ==> items[i] == rest[i - 1];
    }
  }

  /** Every value wrapped as `Ok`, in order. */
  function AllOk<T>(xs: seq<T>): (r: seq<Result<T>>)
    ensures |r| == |xs|
  {
    if xs == [] then [] else [Ok(xs[0])] + AllOk(xs[1..])
  }

  /** An `Ok` item followed by the `Ok` items of the rest are the `Ok` items of the
      whole. */
  lemma ConsAllOk<T>(items: seq<Result<T>>, tail: seq<Result<T>>, xs: seq<T>)
    requires xs != [] && items == [Ok(xs[0])] + tail && tail == AllOk(xs[1..])
    ensures items == AllOk(xs)
  {
  }

  /** Wrapping a value in front of a sequence puts its item in front of theirs. */
  lemma AllOkCons<T>(x: T, rest: seq<T>)
    ensures AllOk([x] + rest) == [Ok(x)] + AllOk(rest)
  {
    assert ([x] + rest)[1..] == rest;
  }

  /** The item at each index is the value there, wrapped as `Ok`. */
  lemma {:induction false} AllOkIndex<T>(xs: seq<T>, i: nat)
    requires i < |xs|
    ensures AllOk(xs)[i] == Ok(xs[i])
    decreases |xs|
  {
    if i > 0 {
      AllOkIndex(xs[1..], i - 1);
    }
  }

  /** Items that are all `Ok` are the `Ok` items of their values. */
  lemma {:induction false} AllOkOfOks<T>(items: seq<Result<T>>) returns (xs: seq<T>)
    requires forall i :: 0 <= i < |items| ==> items[i].Ok?
    ensures items == AllOk(xs)
    decreases |items|
  {
    if items == [] {
      xs := [];
    } else {
      var rest := AllOkOfOks(items[1..]);
      xs := [items[0].value] + rest;
      assert xs[1..] == rest;
      assert items == [items[0]] + items[1..];
    }
  }

  /** Collecting items that are all `Ok` gives back their values. */
  lemma {:induction false} CollectAllOk<T>(xs: seq<T>)
    ensures Collect(AllOk(xs)) == Ok(xs)
    decreases |xs|
  {
    if xs != [] {
      CollectAllOk(xs[1..]);
      CollectCons(Ok(xs[0]), AllOk(xs[1..]));
      assert [xs[0]] + xs[1..] == xs;
    }
  }

  /** Collecting fails with the first error: every item before it is `Ok`. */
  lemma {:induction false} CollectFirstError<T>(items: seq<Result<T>>) returns (i: nat)
    requires Collect(items).Err?
    ensures i < |items| && items[i] == Err(Collect(items).error)
    ensures forall j :: 0 <= j < i ==> items[j].Ok?
    decreases |items|
  {
    if items[0].Err? {
      i := 0;
    } else {
      var k := CollectFirstError(items[1..]);
      i := k + 1;
      assert forall j :: 1 <= j < |items| ==> items[j] == items[1..][j - 1];
    }
  }

  /** `v.to_string()` on a borrowed value: the bytes of its view copied out. */
  function Resolve(data: seq<byte>, x: Option<Span>): (r: Value)
    requires x.Some? ==> x.value.Within(data)
  {
    match x
    case None => None
    case Some(v) => Some(Bytes(data, v))
  }

  /** The items of `row.values().map(|v| v.map(|v| v.map(|v| v.to_string())))`,
      from cursor `remain`, up to and including the first error. */
  function OwnedValues(data: seq<byte>, remain: Span): (r: seq<Result<Value>>)
    requires remain.Within(data)
    decreases remain.hi - remain.lo
  {
    var s := NextValue(data, remain);
    match s.item
    case None => []
    case Some(Err(e)) => [Err(e)]
    case Some(Ok(x)) => [Ok(Resolve(data, x))] + OwnedValues(data, s.remain)
  }

  /** One row in the owned form of `decode_rsv`. */
  function OwnedRow(data: seq<byte>, row: Span): (r: Result<Row>)
    requires row.Within(data)
  {
    Collect(OwnedValues(data, row))
  }

  /** One row in the borrowed form of `decode_rsv_borrowed`. */
  function BorrowedRow(data: seq<byte>, row: Span): (r: Result<seq<Option<Span>>>)
    requires row.Within(data)
  {
    Collect(ValueItems(data, row))
  }

  /** The items of `rows().map(|row| row?.values()...collect())`, owned, from
      cursor `remain`, up to and including the first error of the rows iterator. */
  function OwnedRows(data: seq<byte>, remain: Span): (r: seq<Result<Row>>)
    requires remain.Within(data)
    decreases remain.hi - remain.lo
  {
    var s := NextRow(data, remain);
    match s.item
    case None => []
    case Some(Err(e)) => [Err(e)]
    case Some(Ok(row)) => [OwnedRow(data, row)] + OwnedRows(data, s.remain)
  }

  /** The same, borrowed. */
  function BorrowedRows(data: seq<byte>, remain: Span): (r: seq<Result<seq<Option<Span>>>>)
    requires remain.Within(data)
    decreases remain.hi - remain.lo
  {
    var s := NextRow(data, remain);
    match s.item
    case None => []
    case Some(Err(e)) => [Err(e)]
    case Some(Ok(row)) => [BorrowedRow(data, row)] + BorrowedRows(data, s.remain)
  }

  /** The whole input as the reader's starting cursor. */
  function Whole(data: seq<byte>): (s: Span)
    ensures s.Within(data) && Bytes(data, s) == data
  {
    Span(0, |data|)
  }

  /** `decode_rsv`. */
  function Decode(data: seq<byte>): (r: Result<Document>) {
    Collect(OwnedRows(data, Whole(data)))
  }

  /** `decode_rsv_borrowed`. */
  function DecodeBorrowed(data: seq<byte>): (r: Result<seq<seq<Option<Span>>>>) {
    Collect(BorrowedRows(data, Whole(data)))
  }

  /** An owned item is the borrowed item with its string copied out. */
  predicate CopiedOut(data: seq<byte>, b: Result<Option<Span>>, o: Result<Value>) {
    match b
    case Err(e) => o == Err(e)
    case Ok(x) => (x.Some? ==> x.value.Within(data)) && o == Ok(Resolve(data, x))
  }

  /** The owned values iterator is the values iterator with each string copied
      out, item by item. */
  lemma {:induction false} OwnedValuesFollowIterator(data: seq<byte>, remain: Span)
    requires remain.Within(data)
    ensures |OwnedValues(data, remain)| == |ValueItems(data, remain)|
    ensures forall i :: 0 <= i < |ValueItems(data, remain)| ==>
              CopiedOut(data, ValueItems(data, remain)[i], OwnedValues(data, remain)[i])
    decreases remain.hi - remain.lo
  {
    var s := NextValue(data, remain);
    match s.item {
      case None =>
      case Some(Err(e)) =>
      case Some(Ok(x)) =>
        OwnedValuesFollowIterator(data, s.remain);
        var bs, os := ValueItems(data, remain), OwnedValues(data, remain);
        var bt, ot := ValueItems(data, s.remain), OwnedValues(data, s.remain);
        assert bs == [Ok(x)] + bt;
        assert os == [Ok(Resolve(data, x))] + ot;
        forall i | 1 <= i < |bs| ensures CopiedOut(data, bs[i], os[i]) {
          ConsIndex(Ok(x), bt, i);
          ConsIndex(Ok(Resolve(data, x)), ot, i);
        }
    }
  }

  /** Two rows of values that agree: the same length, and each owned value is
      the copy of the borrowed one. */
  predicate ValuesAgree(data: seq<byte>, o: Row, b: seq<Option<Span>>) {
    |o| == |b| && forall j :: 0 <= j < |o| ==>
      (b[j].Some? ==> b[j].value.Within(data)) && o[j] == Resolve(data, b[j])
  }

  predicate RowResultAgrees(data: seq<byte>, o: Result<Row>, b: Result<seq<Option<Span>>>) {
    match o
    case Err(e) => b == Err(e)
    case Ok(vals) => b.Ok? && ValuesAgree(data, vals, b.value)
  }

  predicate DocResultAgrees(data: seq<byte>, o: Result<Document>, b: Result<seq<seq<Option<Span>>>>) {
    match o
    case Err(e) => b == Err(e)
    case Ok(doc) => b.Ok? && |doc| == |b.value|
                    && forall i :: 0 <= i < |doc| ==> ValuesAgree(data, doc[i], b.value[i])
  }

  /** One more value, copied out, in front of rows of values that agree. */
  lemma ValuesAgreeCons(data: seq<byte>, w: Value, ws: Row, x: Option<Span>, xs: seq<Option<Span>>)
    requires (x.Some? ==> x.value.Within(data)) && w == Resolve(data, x) && ValuesAgree(data, ws, xs)
    ensures ValuesAgree(data, [w] + ws, [x] + xs)
  {
    assert forall j :: 1 <= j < |[w] + ws| ==> ([w] + ws)[j] == ws[j - 1] && ([x] + xs)[j] == xs[j - 1];
  }

  /** The values read from cursor `remain` agree between the two forms. */
  lemma {:induction false} OwnedValuesAgree(data: seq<byte>, remain: Span)
    requires remain.Within(data)
    ensures RowResultAgrees(data, Collect(OwnedValues(data, remain)), Collect(ValueItems(data, remain)))
    decreases remain.hi - remain.lo
  {
    var s := NextValue(data, remain);
    if s.item.Some? && s.item.value.Ok? {
      var x := s.item.value.value;
      var w := Resolve(data, x);
      var ot, bt := OwnedValues(data, s.remain), ValueItems(data, s.remain);
      OwnedValuesAgree(data, s.remain);
      CollectCons(Ok(w), ot);
      CollectCons(Ok(x), bt);
      if Collect(ot).Ok? {
        ValuesAgreeCons(data, w, Collect(ot).value, x, Collect(bt).value);
      }
    }
  }

  /** A row decodes to `Ok` in the owned form exactly when it does in the
      borrowed form, to the same error otherwise, and the owned strings are the
      bytes the borrowed ones view. */
  lemma OwnedRowAgrees(data: seq<byte>, row: Span)
    requires row.Within(data)
    ensures RowResultAgrees(data, OwnedRow(data, row), BorrowedRow(data, row))
  {
    OwnedValuesAgree(data, row);
  }

  /** The rows read from cursor `remain` agree between the two forms. */
  lemma {:induction false} OwnedRowsAgree(data: seq<byte>, remain: Span)
    requires remain.Within(data)
    ensures DocResultAgrees(data, Collect(OwnedRows(data, remain)), Collect(BorrowedRows(data, remain)))
    decreases remain.hi - remain.lo
  {
    var s := NextRow(data, remain);
    if s.item.Some? && s.item.value.Ok? {
      var row := s.item.value.value;
      var o, b := OwnedRow(data, row), BorrowedRow(data, row);
      var ot, bt := OwnedRows(data, s.remain), BorrowedRows(data, s.remain);
      OwnedRowsAgree(data, s.remain);
      OwnedRowAgrees(data, row);
      CollectCons(o, ot);
      CollectCons(b, bt);
      if o.Ok? && Collect(ot).Ok? {
        var d, bd := Collect(ot).value, Collect(bt).value;
        assert forall i :: 1 <= i < |[o.value] + d| ==>
                 ([o.value] + d)[i] == d[i - 1] && ([b.value] + bd)[i] == bd[i - 1];
      }
    }
  }

  /** `decode_rsv` and `decode_rsv_borrowed` give the same structure: both
      succeed or both fail with the same error, and each owned string is the
      bytes its borrowed counterpart views. */
  lemma DecodeAgreesWithBorrowed(data: seq<byte>)
    ensures DocResultAgrees(data, Decode(data), DecodeBorrowed(data))
  {
    OwnedRowsAgree(data, Whole(data));
  }

  /** Every string among the owned values is valid UTF-8. */
  lemma {:induction false} OwnedValuesText(data: seq<byte>, remain: Span)
    requires remain.Within(data)
    ensures forall j :: 0 <= j < |OwnedValues(data, remain)| && OwnedValues(data, remain)[j].Ok? ==>
              IsText(OwnedValues(data, remain)[j].value)
    decreases remain.hi - remain.lo
  {
    var s := NextValue(data, remain);
    if s.item.Some? && s.item.value.Ok? {
      DecodeValueCases(data, Span(remain.lo, s.remain.lo - 1));
      OwnedValuesText(data, s.remain);
      var os, ot := OwnedValues(data, remain), OwnedValues(data, s.remain);
      assert forall j :: 1 <= j < |os| ==> os[j] == ot[j - 1];
    }
  }

  /** Every row that decodes, read from cursor `remain`, holds only text. */
  lemma {:induction false} OwnedRowsText(data: seq<byte>, remain: Span)
    requires remain.Within(data)
    ensures forall i :: 0 <= i < |OwnedRows(data, remain)| && OwnedRows(data, remain)[i].Ok? ==>
              RowIsText(OwnedRows(data, remain)[i].value)
    decreases remain.hi - remain.lo
  {
    var s := NextRow(data, remain);
    if s.item.Some? && s.item.value.Ok? {
      var row := s.item.value.value;
      OwnedValuesText(data, row);
      CollectOk(OwnedValues(data, row));
      OwnedRowsText(data, s.remain);
      var rs, rt := OwnedRows(data, remain), OwnedRows(data, s.remain);
      assert forall i :: 1 <= i < |rs| ==> rs[i] == rt[i - 1];
    }
  }

  /** `decode_rsv` yields `String`s: every value it decodes is valid UTF-8. */
  lemma DecodeIsText(data: seq<byte>)
    requires Decode(data).Ok?
    ensures DocIsText(Decode(data).value)
  {
    OwnedRowsText(data, Whole(data));
    CollectOk(OwnedRows(data, Whole(data)));
  }

  /** `decode_rsv_borrowed` yields `&str`s borrowed from the input: every string
      is a view into `data` whose bytes are valid UTF-8. */
  lemma DecodeBorrowedIsText(data: seq<byte>)
    requires DecodeBorrowed(data).Ok?
    ensures var doc := DecodeBorrowed(data).value;
            forall i, j :: 0 <= i < |doc| && 0 <= j < |doc[i]| && doc[i][j].Some? ==>
              doc[i][j].value.Within(data) && Utf8.Valid(Bytes(data, doc[i][j].value))
  {
    DecodeAgreesWithBorrowed(data);
    DecodeIsText(data);
  }

  /** What `rows().map(...)` makes of one item of the rows iterator: its error,
      which is always `UnterminatedRow`, or the row decoded. */
  predicate RowDecoded(data: seq<byte>, b: Result<Span>, o: Result<Row>) {
    match b
    case Err(e) => e == UnterminatedRow && o == Err(e)
    case Ok(row) => row.Within(data) && o == OwnedRow(data, row)
  }

  /** The owned rows are the rows iterator's items, each row decoded. */
  lemma {:induction false} OwnedRowsFollowIterator(data: seq<byte>, remain: Span)
    requires remain.Within(data)
    ensures |OwnedRows(data, remain)| == |RowItems(data, remain)|
    ensures forall i :: 0 <= i < |RowItems(data, remain)| ==>
              RowDecoded(data, RowItems(data, remain)[i], OwnedRows(data, remain)[i])
    decreases remain.hi - remain.lo
  {
    var s := NextRow(data, remain);
    match s.item {
      case None =>
      case Some(Err(e)) => NextRowCases(data, remain);
      case Some(Ok(row)) =>
        OwnedRowsFollowIterator(data, s.remain);
        var bs, os := RowItems(data, remain), OwnedRows(data, remain);
        var bt, ot := RowItems(data, s.remain), OwnedRows(data, s.remain);
        assert bs == [Ok(row)] + bt;
        assert os == [OwnedRow(data, row)] + ot;
        forall i | 1 <= i < |bs| ensures RowDecoded(data, bs[i], os[i]) {
          ConsIndex(Ok(row), bt, i);
          ConsIndex(OwnedRow(data, row), ot, i);
        }
    }
  }

  /** `decode_rsv` fails with the first error met in row order: every row pulled
      before it decodes, and the failing pull is either an `UnterminatedRow` of
      the rows iterator or a row whose values fail with exactly that error. */
  lemma DecodeFirstError(data: seq<byte>) returns (i: nat)
    requires Decode(data).Err?
    ensures var rows := RowItems(data, Whole(data));
            && i < |rows|
            && (forall k :: 0 <= k < i ==>
                  rows[k].Ok? && rows[k].value.Within(data) && OwnedRow(data, rows[k].value).Ok?)
            && (rows[i].Err? ==> rows[i].error == UnterminatedRow == Decode(data).error)
            && (rows[i].Ok? ==>
                  rows[i].value.Within(data) && OwnedRow(data, rows[i].value) == Err(Decode(data).error))
  {
    OwnedRowsFollowIterator(data, Whole(data));
    i := CollectFirstError(OwnedRows(data, Whole(data)));
  }

  /** A row fails with the first error met in value order: every value pulled
      before it decodes. */
  lemma RowFirstError(data: seq<byte>, row: Span) returns (j: nat)
    requires row.Within(data) && OwnedRow(data, row).Err?
    ensures var values := ValueItems(data, row);
            && j < |values|
            && (forall k :: 0 <= k < j ==> values[k].Ok?)
            && values[j] == Err(OwnedRow(data, row).error)
  {
    OwnedValuesFollowIterator(data, row);
    j := CollectFirstError(OwnedValues(data, row));
  }
}
