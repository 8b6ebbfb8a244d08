/** `RsvReader::rows` and `RsvRow::values`: two cursor-based splitters over a
    borrowed input.  A borrowed slice is a `Span` of offsets into the input; the
    cursor `remain` is a span whose end is fixed and whose start moves forward.

    Each pull: an empty remainder ends the sequence; otherwise the piece before
    the first terminator is yielded and the cursor moves past the terminator; when
    no terminator is left, an error is yielded and the cursor does not move, so
    every later pull yields the same error.
 */
module Reader {
  import opened Wire
  import Utf8

  /** The borrowed slice `data[lo..hi]`. */
  datatype Span = Span(lo: nat, hi: nat) {
    predicate Within(data: seq<byte>) {
      lo <= hi <= |data|
    }
  }

  /** The bytes a span of `data` borrows. */
  function Bytes(data: seq<byte>, s: Span): (r: seq<byte>)
    requires s.Within(data)
  {
    data[s.lo..s.hi]
  }

  /** A slice is the concatenation of the slices either side of a cut. */
  lemma SliceSplit(data: seq<byte>, lo: nat, mid: nat, hi: nat)
    requires lo <= mid <= hi <= |data|
    ensures data[lo..hi] == data[lo..mid] + data[mid..hi]
  {
  }

  /** `iter().position`: the first offset in `s` holding `term`. */
  function Position(data: seq<byte>, s: Span, term: byte): (r: Option<nat>)
    requires s.Within(data)
    ensures r.Some? ==> s.lo <= r.value < s.hi
    decreases s.hi - s.lo
  {
    if s.lo == s.hi then None
    else if data[s.lo] == term then Some(s.lo)
    else Position(data, Span(s.lo + 1, s.hi), term)
  }

  /** Position finds the first occurrence of `term`, and finds none exactly
      when `term` does not occur. */
  lemma {:induction false} PositionFirst(data: seq<byte>, s: Span, term: byte)
    requires s.Within(data)
    ensures var r := Position(data, s, term);
            && (r.Some? ==> data[r.value] == term && term !in data[s.lo..r.value])
            && (r.None? <==> term !in data[s.lo..s.hi])
    decreases s.hi - s.lo
  {
    if s.lo < s.hi && data[s.lo] != term {
      var r := Position(data, Span(s.lo + 1, s.hi), term);
      PositionFirst(data, Span(s.lo + 1, s.hi), term);
      assert data[s.lo..s.hi] == [data[s.lo]] + data[s.lo + 1..s.hi];
      assert r.Some? ==> data[s.lo..r.value] == [data[s.lo]] + data[s.lo + 1..r.value];
    }
  }

  /** A terminator that ends the first piece of a span is found there. */
  lemma {:induction false} PositionOfFirst(data: seq<byte>, s: Span, term: byte, at: nat)
    requires s.Within(data) && s.lo <= at < s.hi
    requires data[at] == term && term !in data[s.lo..at]
    ensures Position(data, s, term) == Some(at)
    decreases s.hi - s.lo
  {
    if s.lo < at {
      assert data[s.lo] == data[s.lo..at][0];
      assert data[s.lo + 1..at] == data[s.lo..at][1..];
      PositionOfFirst(data, Span(s.lo + 1, s.hi), term, at);
    }
  }

  /** One pull of an iterator: the item it yields (`None` when it is exhausted)
      and its cursor afterwards. */
  datatype Step<T> = Step(item: Option<Result<T>>, remain: Span)

  /** A pull of `RsvReader::rows` from cursor `remain`.  What the pull yields
      is stated by NextRowCases. */
  function NextRow(data: seq<byte>, remain: Span): (s: Step<Span>)
    requires remain.Within(data)
    ensures s.remain.Within(data) && s.remain.hi == remain.hi
    ensures s.item.Some? && s.item.value.Ok? ==>
              && remain.lo < s.remain.lo
              && s.item.value.value == Span(remain.lo, s.remain.lo - 1)
  {
    if remain.lo == remain.hi then Step(None, remain)
    else match Position(data, remain, END_ROW)
      case None => Step(Some(Err(UnterminatedRow)), remain)
      case Some(at) => Step(Some(Ok(Span(remain.lo, at))), Span(at + 1, remain.hi))
  }

  /** The row scanner: an empty cursor ends the rows; otherwise the row is the
      span before the first END_ROW and the cursor moves just past it; with no
      END_ROW left the pull is `UnterminatedRow` and the cursor stays put, so
      every later pull is the same error. */
  lemma NextRowCases(data: seq<byte>, remain: Span)
    requires remain.Within(data)
    ensures var s := NextRow(data, remain);
            && (s.item.None? <==> remain.lo == remain.hi)
            && (s.item == Some(Err(UnterminatedRow))
                <==> remain.lo < remain.hi && END_ROW !in Bytes(data, remain))
            && (s.item.Some? && s.item.value.Err? ==> s.item.value.error == UnterminatedRow)
            && (s.item.None? || s.item.value.Err? ==> s.remain == remain)
            && (s.item.Some? && s.item.value.Ok? ==>
                  var row := s.item.value.value;
                  && row.hi < remain.hi && data[row.hi] == END_ROW
                  && END_ROW !in Bytes(data, row))
  {
    if remain.lo < remain.hi {
      PositionFirst(data, remain, END_ROW);
    }
  }

  /** A row the row scanner yields ends just before an END_ROW. */
  lemma NextRowOk(data: seq<byte>, remain: Span, row: Span)
    requires remain.Within(data) && NextRow(data, remain).item == Some(Ok(row))
    ensures row.hi < remain.hi && data[row.hi] == END_ROW
  {
    PositionFirst(data, remain, END_ROW);
  }

  /** How `RsvRow::values` decodes the span before a value terminator: exactly
      NULL_VALUE is an absent value, valid UTF-8 is a string borrowing the span,
      anything else is `BadUtf8`. */
  function DecodeValue(data: seq<byte>, span: Span): (r: Result<Option<Span>>)
    requires span.Within(data)
    ensures r.Ok? && r.value.Some? ==> r.value.value == span
  {
    if Bytes(data, span) == [NULL_VALUE] then Ok(None)
    else if Utf8.Valid(Bytes(data, span)) then Ok(Some(span))
    else Err(BadUtf8)
  }

  /** NULL_VALUE alone is not valid UTF-8, so an absent value and a string can
      never be confused, and a value is `BadUtf8` exactly when its span is
      neither. */
  lemma DecodeValueCases(data: seq<byte>, span: Span)
    requires span.Within(data)
    ensures DecodeValue(data, span) == Ok(None) <==> Bytes(data, span) == [NULL_VALUE]
    ensures DecodeValue(data, span) == Ok(Some(span)) <==> Utf8.Valid(Bytes(data, span))
    ensures DecodeValue(data, span) == Err(BadUtf8)
            <==> Bytes(data, span) != [NULL_VALUE] && !Utf8.Valid(Bytes(data, span))
  {
    assert !Utf8.Valid([NULL_VALUE]);
  }

  /** A pull of `RsvRow::values` from cursor `remain`.  What the pull yields
      is stated by NextValueCases. */
  function NextValue(data: seq<byte>, remain: Span): (s: Step<Option<Span>>)
    requires remain.Within(data)
    ensures s.remain.Within(data) && s.remain.hi == remain.hi
    ensures s.item.Some? && s.item != Some(Err(UnterminatedValue)) ==> remain.lo < s.remain.lo
    ensures s.item.Some? && s.item.value.Ok? && s.item.value.value.Some? ==>
              s.item.value.value.value == Span(remain.lo, s.remain.lo - 1)
  {
    if remain.lo == remain.hi then Step(None, remain)
    else match Position(data, remain, END_VALUE)
      case None => Step(Some(Err(UnterminatedValue)), remain)
      case Some(at) => Step(Some(DecodeValue(data, Span(remain.lo, at))), Span(at + 1, remain.hi))
  }

  /** The value scanner: as the row scanner, splitting on END_VALUE, except that
      the cursor moves past the terminator before the span is decoded, so a
      `BadUtf8` item leaves it advanced. */
  lemma NextValueCases(data: seq<byte>, remain: Span)
    requires remain.Within(data)
    ensures var s := NextValue(data, remain);
            && (s.item.None? <==> remain.lo == remain.hi)
            && (s.item == Some(Err(UnterminatedValue))
                <==> remain.lo < remain.hi && END_VALUE !in Bytes(data, remain))
            && (s.item == Some(Err(UnterminatedValue)) || s.item.None? ==> s.remain == remain)
            && (s.item.Some? && s.item != Some(Err(UnterminatedValue)) ==>
                  var at := s.remain.lo - 1;
                  && at < remain.hi && data[at] == END_VALUE && END_VALUE !in data[remain.lo..at]
                  && s.item == Some(DecodeValue(data, Span(remain.lo, at))))
  {
    if remain.lo < remain.hi {
      PositionFirst(data, remain, END_VALUE);
      var at := Position(data, remain, END_VALUE);
      if at.Some? {
        DecodeValueCases(data, Span(remain.lo, at.value));
      }
    }
  }

  /** After `UnterminatedRow` the cursor has not moved, so the next pull is the
      same error again, for ever. */
  lemma RowErrorRepeats(data: seq<byte>, remain: Span)
    requires remain.Within(data) && NextRow(data, remain).item == Some(Err(UnterminatedRow))
    ensures NextRow(data, NextRow(data, remain).remain) == NextRow(data, remain)
  {
    NextRowCases(data, remain);
  }

  /** After `UnterminatedValue` the cursor has not moved, so the next pull is the
      same error again, for ever. */
  lemma ValueErrorRepeats(data: seq<byte>, remain: Span)
    requires remain.Within(data) && NextValue(data, remain).item == Some(Err(UnterminatedValue))
    ensures NextValue(data, NextValue(data, remain).remain) == NextValue(data, remain)
  {
    NextValueCases(data, remain);
  }

  /** The items `RsvReader::rows` yields from cursor `remain`, up to and including
      the first error (after which it yields that error forever). */
  function RowItems(data: seq<byte>, remain: Span): (r: seq<Result<Span>>)
    requires remain.Within(data)
    decreases remain.hi - remain.lo
  {
    var s := NextRow(data, remain);
    match s.item
    case None => []
    case Some(Err(e)) => [Err(e)]
    case Some(Ok(row)) => [Ok(row)] + RowItems(data, s.remain)
  }

  /** The items `RsvRow::values` yields over the row `row`, up to and including
      the first error of any kind, which is where `collect` stops.  The
      iterator itself goes on after a `BadUtf8`, since its cursor has already
      moved past the bad value; `ValueIter.Next` models that. */
  function ValueItems(data: seq<byte>, row: Span): (r: seq<Result<Option<Span>>>)
    requires row.Within(data)
    decreases row.hi - row.lo
  {
    var s := NextValue(data, row);
    match s.item
    case None => []
    case Some(Err(e)) => [Err(e)]
    case Some(Ok(v)) => [Ok(v)] + ValueItems(data, s.remain)
  }

  /** When the first END_ROW of a non-empty cursor is at `at`, the rows iterator
      yields the row before it and goes on after it. */
  lemma RowItemsFirst(data: seq<byte>, remain: Span, at: nat)
    requires remain.Within(data) && remain.lo <= at < remain.hi
    requires data[at] == END_ROW && END_ROW !in data[remain.lo..at]
    ensures RowItems(data, remain) == [Ok(Span(remain.lo, at))] + RowItems(data, Span(at + 1, remain.hi))
  {
    PositionOfFirst(data, remain, END_ROW, at);
    assert NextRow(data, remain) == Step(Some(Ok(Span(remain.lo, at))), Span(at + 1, remain.hi));
  }

  /** `spans` lie one after another from `lo` to the end of `data`, each
      followed by an END_ROW and holding none. */
  predicate Chain(data: seq<byte>, lo: nat, spans: seq<Span>)
    decreases |spans|
  {
    if spans == [] then lo == |data|
    else
      && spans[0].lo == lo && lo <= spans[0].hi < |data|
      && data[spans[0].hi] == END_ROW && END_ROW !in data[lo..spans[0].hi]
      && Chain(data, spans[0].hi + 1, spans[1..])
  }

  /** A span up to an END_ROW and holding none, in front of a chain, extends
      it. */
  lemma ChainCons(data: seq<byte>, lo: nat, at: nat, rest: seq<Span>)
    requires lo <= at < |data| && data[at] == END_ROW && END_ROW !in data[lo..at]
    requires Chain(data, at + 1, rest)
    ensures Chain(data, lo, [Span(lo, at)] + rest)
  {
    assert ([Span(lo, at)] + rest)[1..] == rest;
  }

  /** When the first row item is a row, it runs from the cursor to an END_ROW,
      and the items after it are those read from just past that END_ROW. */
  lemma RowItemsHead(data: seq<byte>, remain: Span)
    requires remain.Within(data)
    requires RowItems(data, remain) != [] && RowItems(data, remain)[0].Ok?
    ensures var row := RowItems(data, remain)[0].value;
      && row.lo == remain.lo && row.hi < remain.hi && data[row.hi] == END_ROW
      && RowItems(data, remain) == [Ok(row)] + RowItems(data, Span(row.hi + 1, remain.hi))
  {
    var s := NextRow(data, remain);
    assert s.item.Some? && s.item.value.Ok?;
    NextRowOk(data, remain, s.item.value.value);
  }

  /** When the first END_VALUE of a non-empty cursor is at `at`, the values
      iterator yields the decoded span before it and, unless that is an error,
      goes on after it. */
  lemma ValueItemsFirst(data: seq<byte>, remain: Span, at: nat)
    requires remain.Within(data) && remain.lo <= at < remain.hi
    requires data[at] == END_VALUE && END_VALUE !in data[remain.lo..at]
    ensures var x := DecodeValue(data, Span(remain.lo, at));
            ValueItems(data, remain) == [x] + (if x.Ok? then ValueItems(data, Span(at + 1, remain.hi)) else [])
  {
    PositionOfFirst(data, remain, END_VALUE, at);
    var x := DecodeValue(data, Span(remain.lo, at));
    assert NextValue(data, remain) == Step(Some(x), Span(at + 1, remain.hi));
    if x.Err? {
      assert ValueItems(data, remain) == [x];
    }
  }

  /** The iterator returned by `RsvReader::new(data).rows()`. */
  class RowIter {
    const data: seq<byte>
    var remain: Span

    ghost predicate Valid()
      reads this
    {
      remain.Within(data) && remain.hi == |data|
    }

    constructor (data: seq<byte>)
      ensures Valid() && this.data == data && remain == Span(0, |data|)
    {
      this.data := data;
      remain := Span(0, |data|);
    }

    /** `next()`: one pull.  What is left to yield is the item followed by what
        the new cursor yields; after an error the cursor has not moved. */
    method Next() returns (item: Option<Result<Span>>)
      requires Valid()
      modifies this
      ensures Valid()
      ensures Step(item, remain) == NextRow(data, old(remain))
      ensures old(RowItems(data, remain)) ==
              match item
              case None => []
              case Some(Err(e)) => [Err(e)]
              case Some(Ok(row)) => [Ok(row)] + RowItems(data, remain)
    {
      if remain.lo == remain.hi {
        return None;
      }
      var at := Position(data, remain, END_ROW);
      if at.None? {
        return Some(Err(UnterminatedRow));
      }
      item := Some(Ok(Span(remain.lo, at.value)));
      remain := Span(at.value + 1, remain.hi);
    }
  }

  /** The iterator returned by `RsvRow::values` for the row `row` of `data`. */
  class ValueIter {
    const data: seq<byte>
    const row: Span
    var remain: Span

    ghost predicate Valid()
      reads this
    {
      row.Within(data) && remain.Within(data) && row.lo <= remain.lo && remain.hi == row.hi
    }

    constructor (data: seq<byte>, row: Span)
      requires row.Within(data)
      ensures Valid() && this.data == data && this.row == row && remain == row
    {
      this.data, this.row := data, row;
      remain := row;
    }

    /** `next()`: one pull, as for rows but splitting on END_VALUE and decoding
        each span with DecodeValue. */
    method Next() returns (item: Option<Result<Option<Span>>>)
      requires Valid()
      modifies this
      ensures Valid()
      ensures Step(item, remain) == NextValue(data, old(remain))
      ensures old(ValueItems(data, remain)) ==
              match item
              case None => []
              case Some(Err(e)) => [Err(e)]
              case Some(Ok(v)) => [Ok(v)] + ValueItems(data, remain)
    {
      if remain.lo == remain.hi {
        return None;
      }
      var at := Position(data, remain, END_VALUE);
      if at.None? {
        return Some(Err(UnterminatedValue));
      }
      var value := Span(remain.lo, at.value);
      remain := Span(at.value + 1, remain.hi);
      if Bytes(data, value) == [NULL_VALUE] {
        item := Some(Ok(None));
      } else if Utf8.Valid(Bytes(data, value)) {
        item := Some(Ok(Some(value)));
      } else {
        item := Some(Err(BadUtf8));
      }
    }
  }
}
