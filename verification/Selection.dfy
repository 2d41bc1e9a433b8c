/** Terminal text selection (crates/core/src/terminal_selection.rs): ordering the
    two ends of a drag, widening to whole glyphs, and copying out the text. */
module Selection {
  import opened Basics

  const MAX_CLIPBOARD_BYTES: nat := 512 * 1024
  const MAX_INDEX: nat := 0xFFFF
  const SPACE: byte := 32
  const NEWLINE: byte := 10

  datatype Cell = Cell(contents: seq<byte>, wide: bool, continuation: bool)
  datatype Row = Row(cells: seq<Cell>, wrapped: bool)
  datatype Point = Point(row: nat, column: nat)
  datatype Range = Range(start: Point, end: Point)

  datatype Error = InvalidRange | InvalidSurface | Empty | TooLarge | ContainsNul
  datatype Result<T> = Ok(value: T) | Err(error: Error)

  predicate AtMost(p: Point, q: Point) { p.row < q.row || (p.row == q.row && p.column <= q.column) }

  function NewRange(anchor: Point, focus: Point): (r: Range)
    ensures AtMost(r.start, r.end)
    ensures {r.start, r.end} == {anchor, focus}
  {
    if AtMost(anchor, focus) then Range(anchor, focus) else Range(focus, anchor)
  }

  predicate Contains(r: Range, p: Point) { AtMost(r.start, p) && AtMost(p, r.end) }

  predicate OnSurface(rows: seq<Row>, p: Point) { p.row < |rows| && p.column < |rows[p.row].cells| }

  function CellAt(rows: seq<Row>, p: Point): Cell
    requires OnSurface(rows, p)
  {
    rows[p.row].cells[p.column]
  }

  // ----- Widening to whole glyphs --------------------------------------------------

  function ExpandStart(rows: seq<Row>, p: Point): Result<Point>
    requires OnSurface(rows, p)
  {
    if !CellAt(rows, p).continuation then Ok(p)
    else if p.column == 0 || !CellAt(rows, p.(column := p.column - 1)).wide then Err(InvalidSurface)
    else Ok(p.(column := p.column - 1))
  }

  function ExpandEnd(rows: seq<Row>, p: Point): Result<Point>
    requires OnSurface(rows, p)
  {
    var next := p.(column := p.column + 1);
    if !CellAt(rows, p).wide then Ok(p)
    else if p.column == MAX_INDEX then Err(InvalidSurface)
    else if !OnSurface(rows, next) then Err(InvalidRange)
    else if !CellAt(rows, next).continuation then Err(InvalidSurface)
    else Ok(next)
  }

  function ExpandWide(rows: seq<Row>, r: Range): Result<Range> {
    if !OnSurface(rows, r.start) || !OnSurface(rows, r.end) then Err(InvalidRange)
    else
      match ExpandStart(rows, r.start)
      case Err(error) => Err(error)
      case Ok(start) =>
        match ExpandEnd(rows, r.end)
        case Err(error) => Err(error)
        case Ok(end) => Ok(Range(start, end))
  }

  /** Every wide cell is followed by its continuation and every continuation
      follows a wide cell; rows have cells, and no more than 16 bits can index. */
  predicate WellFormed(rows: seq<Row>) { forall i :: 0 <= i < |rows| ==> WellFormedRow(rows[i]) }

  predicate WellFormedRow(row: Row) {
    && 0 < |row.cells| <= MAX_INDEX + 1
    && (forall c :: 0 <= c < |row.cells| && row.cells[c].wide ==>
      !row.cells[c].continuation && c + 1 < |row.cells| && row.cells[c + 1].continuation)
    && (forall c :: 0 <= c < |row.cells| && row.cells[c].continuation ==> c > 0 && row.cells[c - 1].wide)
  }

  /** The two halves of a wide glyph are selected together. */
  ghost predicate KeepsGlyphsWhole(rows: seq<Row>, r: Range) {
    forall i, c :: (0 <= i < |rows| && 0 <= c < |rows[i].cells| && rows[i].cells[c].wide) ==>
      (Contains(r, Point(i, c)) <==> Contains(r, Point(i, c + 1)))
  }

  /** On a well-formed surface widening succeeds exactly for ends on the surface;
      the result never shrinks, cuts no glyph, is a fixed point, and is the least
      range that cuts no glyph. */
  lemma ExpandWideExact(rows: seq<Row>, r: Range)
    requires WellFormed(rows) && AtMost(r.start, r.end)
    ensures ExpandWide(rows, r).Ok? <==> OnSurface(rows, r.start) && OnSurface(rows, r.end)
    ensures var e := ExpandWide(rows, r);
      e.Ok? ==>
        && AtMost(e.value.start, r.start) && AtMost(r.end, e.value.end) && AtMost(e.value.start, e.value.end)
        && OnSurface(rows, e.value.start) && OnSurface(rows, e.value.end)
        && KeepsGlyphsWhole(rows, e.value)
        && ExpandWide(rows, e.value) == e
  {
    if OnSurface(rows, r.start) && OnSurface(rows, r.end) {
      assert WellFormedRow(rows[r.start.row]) && WellFormedRow(rows[r.end.row]);
      var e := ExpandWide(rows, r).value;
      forall i, c | 0 <= i < |rows| && 0 <= c < |rows[i].cells| && rows[i].cells[c].wide
        ensures Contains(e, Point(i, c)) <==> Contains(e, Point(i, c + 1))
      {
        assert WellFormedRow(rows[i]);
      }
    }
  }

  /** A continuation cell that does not follow a wide one, and a wide cell that is
      not followed by one. */
  predicate Orphan(rows: seq<Row>, p: Point)
    requires OnSurface(rows, p)
  {
    CellAt(rows, p).continuation && (p.column == 0 || !rows[p.row].cells[p.column - 1].wide)
  }

  predicate Halved(rows: seq<Row>, p: Point)
    requires OnSurface(rows, p)
  {
    && CellAt(rows, p).wide
    && (p.column == MAX_INDEX || (p.column + 1 < |rows[p.row].cells| && !rows[p.row].cells[p.column + 1].continuation))
  }

  predicate CutOff(rows: seq<Row>, p: Point)
    requires OnSurface(rows, p)
  {
    CellAt(rows, p).wide && p.column + 1 == |rows[p.row].cells| && p.column != MAX_INDEX
  }

  /** On any rows at all, widening fails for an end off the surface, an orphan at the
      start, or a glyph without its other half at the end, and says which. */
  lemma ExpandWideErrors(rows: seq<Row>, r: Range)
    ensures
      var on := OnSurface(rows, r.start) && OnSurface(rows, r.end);
      && (ExpandWide(rows, r) == Err(InvalidSurface) <==> on && (Orphan(rows, r.start) || Halved(rows, r.end)))
      && (ExpandWide(rows, r) == Err(InvalidRange) <==> !on || (!Orphan(rows, r.start) && CutOff(rows, r.end)))
      && (ExpandWide(rows, r).Ok? <==>
            on && !Orphan(rows, r.start) && !Halved(rows, r.end) && !CutOff(rows, r.end))
  {
  }

  lemma ExpandWideIsLeast(rows: seq<Row>, r: Range, wider: Range)
    requires WellFormed(rows) && AtMost(r.start, r.end) && OnSurface(rows, r.start) && OnSurface(rows, r.end)
    requires AtMost(wider.start, r.start) && AtMost(r.end, wider.end) && KeepsGlyphsWhole(rows, wider)
    ensures var e := ExpandWide(rows, r);
      e.Ok? && AtMost(wider.start, e.value.start) && AtMost(e.value.end, wider.end)
  {
    assert WellFormedRow(rows[r.start.row]) && WellFormedRow(rows[r.end.row]);
    var s, t := r.start, r.end;
    if CellAt(rows, s).continuation {
      assert rows[s.row].cells[s.column - 1].wide;
      assert Contains(wider, Point(s.row, s.column - 1 + 1));
      assert Contains(wider, Point(s.row, s.column - 1));
    }
    if CellAt(rows, t).wide {
      assert Contains(wider, Point(t.row, t.column));
      assert Contains(wider, Point(t.row, t.column + 1));
    }
  }

  // ----- Reading order -------------------------------------------------------------

  /** What one selected cell adds to the text. */
  function Glyph(cell: Cell): seq<byte> {
    if cell.continuation then [] else if cell.contents == [] then [SPACE] else cell.contents
  }

  /** The text of the cells of `row` from `a` up to `b`. */
  function CellsText(row: Row, a: nat, b: nat): seq<byte>
    requires b <= |row.cells|
  {
    if a >= b then [] else CellsText(row, a, b - 1) + Glyph(row.cells[b - 1])
  }

  function FirstColumn(r: Range, i: nat): nat { if i == r.start.row then r.start.column else 0 }

  function PastColumn(rows: seq<Row>, r: Range, i: nat): nat
    requires i < |rows|
  {
    if i == r.end.row then r.end.column + 1 else |rows[i].cells|
  }

  /** The selected cells of row `i`, and a newline if the text goes on below and
      the row did not wrap. */
  function RowText(rows: seq<Row>, r: Range, i: nat): seq<byte>
    requires i < |rows| && OnSurface(rows, r.end)
  {
    CellsText(rows[i], FirstColumn(r, i), PastColumn(rows, r, i)) + Break(rows, r, i)
  }

  function Break(rows: seq<Row>, r: Range, i: nat): seq<byte>
    requires i < |rows|
  {
    if i < r.end.row && !rows[i].wrapped then [NEWLINE] else []
  }

  /** The text of the rows from the first selected one up to `i`. */
  function TextUpTo(rows: seq<Row>, r: Range, i: nat): seq<byte>
    requires OnSurface(rows, r.end) && i <= r.end.row + 1
  {
    if i <= r.start.row then [] else TextUpTo(rows, r, i - 1) + RowText(rows, r, i - 1)
  }

  function Text(rows: seq<Row>, r: Range): seq<byte>
    requires OnSurface(rows, r.end)
  {
    TextUpTo(rows, r, r.end.row + 1)
  }

  /** The clipboard takes non-empty bounded text without NUL. */
  function Clipboard(text: seq<byte>): Result<seq<byte>> {
    if text == [] then Err(Empty)
    else if |text| > MAX_CLIPBOARD_BYTES then Err(TooLarge)
    else if 0 in text then Err(ContainsNul)
    else Ok(text)
  }

  // ----- The text is what the range contains ---------------------------------------

  /** The text of the cells of row `i` up to column `b` that the range contains. */
  function ContainedCells(rows: seq<Row>, r: Range, i: nat, b: nat): seq<byte>
    requires i < |rows| && b <= |rows[i].cells|
  {
    if b == 0 then []
    else ContainedCells(rows, r, i, b - 1) + if Contains(r, Point(i, b - 1)) then Glyph(rows[i].cells[b - 1]) else []
  }

  /** Those cells of the whole row, and a newline if it did not wrap and the range
      goes on below it. */
  function ContainedRow(rows: seq<Row>, r: Range, i: nat): seq<byte>
    requires i < |rows|
  {
    ContainedCells(rows, r, i, |rows[i].cells|) +
    if r.start.row <= i < r.end.row && !rows[i].wrapped then [NEWLINE] else []
  }

  function ContainedText(rows: seq<Row>, r: Range, i: nat): seq<byte>
    requires i <= |rows|
  {
    if i == 0 then [] else ContainedText(rows, r, i - 1) + ContainedRow(rows, r, i - 1)
  }

  lemma AppendNothing(text: seq<byte>)
    ensures text + [] == text
  {
  }

  lemma InRow(rows: seq<Row>, r: Range, i: nat, c: nat)
    requires i < |rows| && c < |rows[i].cells| && AtMost(r.start, r.end)
    ensures Contains(r, Point(i, c)) <==>
      r.start.row <= i <= r.end.row && FirstColumn(r, i) <= c < PastColumn(rows, r, i)
  {
  }

  lemma {:induction false} ContainedCellsAre(rows: seq<Row>, r: Range, i: nat, b: nat)
    requires i < |rows| && b <= |rows[i].cells| && OnSurface(rows, r.end) && AtMost(r.start, r.end)
    ensures ContainedCells(rows, r, i, b) ==
      if r.start.row <= i <= r.end.row
      then CellsText(rows[i], FirstColumn(r, i), if b < PastColumn(rows, r, i) then b else PastColumn(rows, r, i))
      else []
  {
    if b > 0 {
      ContainedCellsAre(rows, r, i, b - 1);
      InRow(rows, r, i, b - 1);
      AppendNothing(ContainedCells(rows, r, i, b - 1));
    }
  }

  lemma ContainedRowIs(rows: seq<Row>, r: Range, i: nat)
    requires i < |rows| && OnSurface(rows, r.end) && AtMost(r.start, r.end)
    ensures ContainedRow(rows, r, i) == if r.start.row <= i <= r.end.row then RowText(rows, r, i) else []
  {
    ContainedCellsAre(rows, r, i, |rows[i].cells|);
  }

  /** Above the range nothing is contained... */
  lemma {:induction false} NothingAbove(rows: seq<Row>, r: Range, i: nat)
    requires i <= r.start.row && i <= |rows| && OnSurface(rows, r.end) && AtMost(r.start, r.end)
    ensures ContainedText(rows, r, i) == []
  {
    if i > 0 {
      NothingAbove(rows, r, i - 1);
      ContainedRowIs(rows, r, i - 1);
    }
  }

  /** ... within it the rows add up ... */
  lemma {:induction false} RowsWithin(rows: seq<Row>, r: Range, i: nat)
    requires r.start.row <= i <= r.end.row + 1 && OnSurface(rows, r.end) && AtMost(r.start, r.end)
    ensures ContainedText(rows, r, i) == TextUpTo(rows, r, i)
  {
    if i == r.start.row {
      NothingAbove(rows, r, i);
    } else {
      RowsWithin(rows, r, i - 1);
      ContainedRowIs(rows, r, i - 1);
      assert ContainedText(rows, r, i) == ContainedText(rows, r, i - 1) + ContainedRow(rows, r, i - 1);
      assert TextUpTo(rows, r, i) == TextUpTo(rows, r, i - 1) + RowText(rows, r, i - 1);
    }
  }

  /** ... and below it nothing more comes. */
  lemma {:induction false} NothingBelow(rows: seq<Row>, r: Range, i: nat)
    requires r.end.row < i <= |rows| && OnSurface(rows, r.end) && AtMost(r.start, r.end)
    ensures ContainedText(rows, r, i) == ContainedText(rows, r, r.end.row + 1)
  {
    if i > r.end.row + 1 {
      NothingBelow(rows, r, i - 1);
      ContainedRowIs(rows, r, i - 1);
      AppendNothing(ContainedText(rows, r, i - 1));
    }
  }

  /** Extraction reads exactly the cells the range contains, in reading order. */
  lemma TextIsContained(rows: seq<Row>, r: Range)
    requires OnSurface(rows, r.end) && AtMost(r.start, r.end)
    ensures Text(rows, r) == ContainedText(rows, r, |rows|)
  {
    RowsWithin(rows, r, r.end.row + 1);
    NothingBelow(rows, r, |rows|);
  }

  // ----- The extraction loop -------------------------------------------------------

  /** Appends under the clipboard limit: fails exactly when the result would be
      over it. */
  method AppendBounded(text: seq<byte>, value: seq<byte>) returns (r: Result<seq<byte>>)
    ensures r == if |text + value| > MAX_CLIPBOARD_BYTES then Err(TooLarge) else Ok(text + value)
  {
    if |text| + |value| > MAX_CLIPBOARD_BYTES { return Err(TooLarge); }
    r := Ok(text + value);
  }

  lemma {:induction false} CellsGrow(row: Row, a: nat, b: nat, c: nat)
    requires b <= c <= |row.cells|
    ensures |CellsText(row, a, b)| <= |CellsText(row, a, c)|
  {
    if a < c && b < c {
      CellsGrow(row, a, b, c - 1);
      assert CellsText(row, a, c) == CellsText(row, a, c - 1) + Glyph(row.cells[c - 1]);
    }
  }

  /** The cells of one row, one by one. */
  method ExtractCells(row: Row, a: nat, b: nat, start: seq<byte>) returns (r: Result<seq<byte>>)
    requires b <= |row.cells| && |start| <= MAX_CLIPBOARD_BYTES
    ensures r == Bounded(start + CellsText(row, a, b))
  {
    var text := start;
    AppendNothing(start);
    if a >= b { return Ok(text); }
    for column := a to b
      invariant text == start + CellsText(row, a, column) && |text| <= MAX_CLIPBOARD_BYTES
    {
      var selected := row.cells[column];
      assert start + CellsText(row, a, column + 1) == text + Glyph(selected);
      CellsGrow(row, a, column + 1, b);
      if selected.continuation {
        AppendNothing(text);
        continue;
      }
      var contents := if selected.contents == [] then [SPACE] else selected.contents;
      var appended := AppendBounded(text, contents);
      if appended.Err? { return appended; }
      text := appended.value;
    }
    r := Ok(text);
  }

  function Bounded(text: seq<byte>): Result<seq<byte>> {
    if |text| > MAX_CLIPBOARD_BYTES then Err(TooLarge) else Ok(text)
  }

  lemma {:induction false} TextGrows(rows: seq<Row>, r: Range, i: nat, j: nat)
    requires OnSurface(rows, r.end) && i <= j <= r.end.row + 1
    ensures |TextUpTo(rows, r, i)| <= |TextUpTo(rows, r, j)|
  {
    if i < j { TextGrows(rows, r, i, j - 1); }
  }

  /** What the loop makes of a row above the last: no cells, or too many to index,
      is an error. */
  function RowError(row: Row): Option<Error> {
    if |row.cells| == 0 then Some(InvalidRange) else if |row.cells| > MAX_INDEX + 1 then Some(InvalidSurface) else None
  }

  /** The first row from `i` on that is in error, or the one after the range. */
  function FirstBad(rows: seq<Row>, r: Range, i: nat): (stop: nat)
    requires OnSurface(rows, r.end) && i <= r.end.row + 1
    ensures i <= stop <= r.end.row + 1
    ensures stop <= r.end.row ==> stop < r.end.row && RowError(rows[stop]).Some?
    decreases r.end.row + 1 - i
  {
    if i > r.end.row || (i < r.end.row && RowError(rows[i]).Some?) then i else FirstBad(rows, r, i + 1)
  }

  /** The result for any rows: the first row in error decides, unless the text
      before it is already over the limit. */
  function Outcome(rows: seq<Row>, r: Range): Result<seq<byte>>
    requires OnSurface(rows, r.end)
  {
    if r.start.row > r.end.row then Err(Empty)
    else
      var stop := FirstBad(rows, r, r.start.row);
      if |TextUpTo(rows, r, stop)| > MAX_CLIPBOARD_BYTES then Err(TooLarge)
      else if stop <= r.end.row then Err(RowError(rows[stop]).value)
      else Clipboard(Text(rows, r))
  }

  /** One row of the selection. */
  method ExtractRow(rows: seq<Row>, r: Range, i: nat, text: seq<byte>) returns (out: Result<seq<byte>>)
    requires OnSurface(rows, r.end) && i <= r.end.row && |text| <= MAX_CLIPBOARD_BYTES
    requires i == r.start.row ==> r.start.column < |rows[i].cells|
    ensures out ==
      if i < r.end.row && RowError(rows[i]).Some? then Err(RowError(rows[i]).value)
      else Bounded(text + RowText(rows, r, i))
  {
    var row := rows[i];
    if i < r.end.row && |row.cells| == 0 { return Err(InvalidRange); }
    if i < r.end.row && |row.cells| > MAX_INDEX + 1 { return Err(InvalidSurface); }
    var cells := ExtractCells(row, FirstColumn(r, i), PastColumn(rows, r, i), text);
    ghost var selected := CellsText(row, FirstColumn(r, i), PastColumn(rows, r, i));
    assert text + RowText(rows, r, i) == text + selected + Break(rows, r, i);
    if cells.Err? { return cells; }
    out := cells;
    if i < r.end.row && !row.wrapped {
      out := AppendBounded(cells.value, [NEWLINE]);
    } else {
      AppendNothing(cells.value);
    }
  }

  /** How the loop can end: with too much text, ... */
  lemma EndsTooLarge(rows: seq<Row>, r: Range, i: nat)
    requires OnSurface(rows, r.end) && r.start.row <= i <= r.end.row && i < FirstBad(rows, r, r.start.row)
    requires |TextUpTo(rows, r, i + 1)| > MAX_CLIPBOARD_BYTES
    ensures Outcome(rows, r) == Err(TooLarge)
  {
    TextGrows(rows, r, i + 1, FirstBad(rows, r, r.start.row));
  }

  /** ... at a row in error, or at the end of the range. */
  lemma EndsAt(rows: seq<Row>, r: Range, i: nat)
    requires OnSurface(rows, r.end) && r.start.row <= r.end.row && i == FirstBad(rows, r, r.start.row)
    requires |TextUpTo(rows, r, i)| <= MAX_CLIPBOARD_BYTES
    ensures i <= r.end.row ==> RowError(rows[i]).Some? && Outcome(rows, r) == Err(RowError(rows[i]).value)
    ensures i > r.end.row ==> Outcome(rows, r) == Clipboard(Text(rows, r))
  {
  }

  method ExtractRows(rows: seq<Row>, r: Range) returns (out: Result<seq<byte>>)
    requires OnSurface(rows, r.start) && OnSurface(rows, r.end) && r.start.row <= r.end.row
    ensures out == Outcome(rows, r)
  {
    var text := [];
    ghost var stop := FirstBad(rows, r, r.start.row);
    for i := r.start.row to r.end.row + 1
      invariant text == TextUpTo(rows, r, i) && |text| <= MAX_CLIPBOARD_BYTES
      invariant i <= stop && FirstBad(rows, r, i) == stop
    {
      var next := ExtractRow(rows, r, i, text);
      assert TextUpTo(rows, r, i + 1) == text + RowText(rows, r, i);
      if next.Err? {
        if i < stop { EndsTooLarge(rows, r, i); } else { EndsAt(rows, r, i); }
        return next;
      }
      text := next.value;
    }
    EndsAt(rows, r, r.end.row + 1);
    out := Clipboard(text);
  }

  lemma ExpandStays(rows: seq<Row>, r: Range)
    ensures var e := ExpandWide(rows, r);
      e.Ok? ==> OnSurface(rows, e.value.start) && OnSurface(rows, e.value.end)
  {
  }

  method Extract(rows: seq<Row>, range: Range) returns (r: Result<seq<byte>>)
    ensures r == match ExpandWide(rows, range)
      case Err(error) => Err(error) case Ok(selected) => Outcome(rows, selected)
  {
    ExpandStays(rows, range);
    var expanded := ExpandWide(rows, range);
    if expanded.Err? { return Err(expanded.error); }
    var selected := expanded.value;
    if selected.start.row > selected.end.row { return Clipboard([]); }
    r := ExtractRows(rows, selected);
  }

  /** On a well-formed surface the copied text is the reading-order text of the
      widened range; it fails exactly when an end is off the surface or the text
      is empty, over the limit or holds a NUL, and says which; and it does not
      depend on the direction of the drag. */
  lemma WellFormedOutcome(rows: seq<Row>, anchor: Point, focus: Point)
    requires WellFormed(rows)
    ensures NewRange(anchor, focus) == NewRange(focus, anchor)
    ensures var e := ExpandWide(rows, NewRange(anchor, focus));
      && (e.Err? <==> !OnSurface(rows, anchor) || !OnSurface(rows, focus))
      && (e.Err? ==> e.error == InvalidRange)
      && (e.Ok? ==>
        && OnSurface(rows, e.value.end)
        && var text, outcome := ContainedText(rows, e.value, |rows|), Outcome(rows, e.value);
        && (outcome == Ok(text) <==> 0 < |text| <= MAX_CLIPBOARD_BYTES && forall i :: 0 <= i < |text| ==> text[i] != 0)
        && (outcome.Ok? ==> outcome == Ok(text))
        && (outcome == Err(Empty) <==> |text| == 0)
        && (outcome == Err(TooLarge) <==> |text| > MAX_CLIPBOARD_BYTES)
        && (outcome == Err(ContainsNul) <==>
              |text| <= MAX_CLIPBOARD_BYTES && exists i :: 0 <= i < |text| && text[i] == 0))
  {
    var range := NewRange(anchor, focus);
    ExpandWideExact(rows, range);
    var e := ExpandWide(rows, range);
    if e.Ok? { NoBadRow(rows, e.value); }
  }

  // ----- What a selection of one row reads like ---------------------------------------

  /** Every cell holds at most one byte and stands for itself. */
  predicate PlainCells(row: Row, a: nat, b: nat)
    requires b <= |row.cells|
  {
    forall c :: a <= c < b ==> !row.cells[c].continuation && |row.cells[c].contents| <= 1
  }

  /** Columns stay columns: of plain cells, each gives its byte, a blank one a space. */
  lemma {:induction false} ColumnsStayColumns(row: Row, a: nat, b: nat)
    requires a <= b <= |row.cells| && PlainCells(row, a, b)
    ensures |CellsText(row, a, b)| == b - a
    ensures forall c :: a <= c < b ==>
      [CellsText(row, a, b)[c - a]] == if row.cells[c].contents == [] then [SPACE] else row.cells[c].contents
  {
    if a < b { ColumnsStayColumns(row, a, b - 1); }
  }

  lemma {:induction false} CellsJoin(row: Row, a: nat, b: nat, c: nat)
    requires a <= b <= c <= |row.cells|
    ensures CellsText(row, a, c) == CellsText(row, a, b) + CellsText(row, b, c)
  {
    if b < c {
      CellsJoin(row, a, b, c - 1);
    } else {
      AppendNothing(CellsText(row, a, b));
    }
  }

  /** A wide glyph is read once, whatever stands around it. */
  lemma WideIsReadOnce(row: Row, a: nat, c: nat, b: nat)
    requires WellFormedRow(row) && a <= c && c + 2 <= b <= |row.cells|
    requires row.cells[c].wide && row.cells[c].contents != []
    ensures CellsText(row, a, b) == CellsText(row, a, c) + row.cells[c].contents + CellsText(row, c + 2, b)
  {
    CellsJoin(row, a, c, b);
    CellsJoin(row, c, c + 2, b);
    assert CellsText(row, c, c + 1) == row.cells[c].contents;
    AppendNothing(row.cells[c].contents);
    assert CellsText(row, c, c + 2) == row.cells[c].contents;
    var left, middle, right := CellsText(row, a, c), row.cells[c].contents, CellsText(row, c + 2, b);
    assert left + (middle + right) == left + middle + right;
  }

  lemma NoBadRow(rows: seq<Row>, r: Range)
    requires WellFormed(rows) && OnSurface(rows, r.end) && AtMost(r.start, r.end)
    ensures Outcome(rows, r) == Clipboard(ContainedText(rows, r, |rows|))
  {
    TextIsContained(rows, r);
    AllRowsGood(rows, r);
    if |Text(rows, r)| <= MAX_CLIPBOARD_BYTES { EndsAt(rows, r, r.end.row + 1); }
  }

  lemma AllRowsGood(rows: seq<Row>, r: Range)
    requires WellFormed(rows) && OnSurface(rows, r.end) && AtMost(r.start, r.end)
    ensures FirstBad(rows, r, r.start.row) == r.end.row + 1
  {
    var stop := FirstBad(rows, r, r.start.row);
    assert stop < |rows| ==> WellFormedRow(rows[stop]);
  }
}
