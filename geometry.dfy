/** Page and column geometry: a US-Letter page in PDF units (72 per inch),
    five equal text columns separated by fixed gaps, and a puzzle grid that
    occupies the top of the three right-hand columns. */
module Geometry {

  const PageWidth: real := 612.0
  const PageHeight: real := 792.0
  const MarginLeft: real := 72.0
  const MarginRight: real := 72.0
  const MarginBottom: real := 72.0

  const NumColumns: int := 5
  const ColumnGap: real := 25.0
  /** How many columns the grid spans. */
  const GridColumns: int := 3

  /** The width of one column: the text width less the four gaps, shared by five. */
  function UnitWidth(): real
  {
    (PageWidth - MarginLeft - MarginRight - ColumnGap * (NumColumns - 1) as real) / NumColumns as real
  }

  /** The width of `n` adjacent columns together with the `n - 1` gaps between them. */
  function ColumnWidth(n: int): real
  {
    n as real * UnitWidth() + (n - 1) as real * ColumnGap
  }

  /** Five columns side by side fill the text width exactly. */
  lemma ColumnWidthSpansTextWidth()
    ensures ColumnWidth(NumColumns) == PageWidth - MarginLeft - MarginRight == 468.0
  {
  }

  /** `a` columns, a gap and `b` more columns are `a + b` columns. */
  lemma ColumnWidthJoin(a: int, b: int)
    ensures ColumnWidth(a + b) == ColumnWidth(a) + ColumnGap + ColumnWidth(b)
  {
  }

  /** One region clue text flows into: left edge `x`, first line at `y`,
      no text below `y2`. */
  datatype ColumnBound = ColumnBound(x: real, y: real, y2: real)

  /** The five column regions in flow order. `top` is the bottom of the page
      header (where both the grid and the first two columns start) and
      `gridHeight` the height of the grid, below which the last three
      columns start. */
  function ColumnBounds(top: real, gridHeight: real): (b: seq<ColumnBound>)
    ensures |b| == NumColumns
    ensures forall k :: 0 <= k < |b| ==> b[k].x == MarginLeft + k as real * (UnitWidth() + ColumnGap)
    ensures forall j, k :: 0 <= j < k < |b| ==> b[j].x < b[k].x
    ensures b[0].y == top && b[1].y == top
    ensures forall k :: 2 <= k < |b| ==> b[k].y == top + gridHeight + ColumnGap
    ensures forall k :: 0 <= k < |b| ==> b[k].y2 == PageHeight - MarginBottom == 720.0
  {
    var bottom := PageHeight - MarginBottom;
    var below := top + gridHeight + ColumnGap;
    [ ColumnBound(MarginLeft, top, bottom),
      ColumnBound(MarginLeft + ColumnWidth(1) + ColumnGap, top, bottom),
      ColumnBound(MarginLeft + ColumnWidth(2) + ColumnGap, below, bottom),
      ColumnBound(MarginLeft + ColumnWidth(3) + ColumnGap, below, bottom),
      ColumnBound(MarginLeft + ColumnWidth(4) + ColumnGap, below, bottom) ]
  }

  /** The side of one grid cell: the grid's `cols` cells share the width of
      `GridColumns` columns. */
  function CellSize(cols: int): (s: real)
    requires cols > 0
    ensures s > 0.0
    ensures cols as real * s == ColumnWidth(GridColumns)
  {
    ColumnWidth(GridColumns) / cols as real
  }

  function GridHeight(rows: int, cols: int): real
    requires cols > 0
  {
    CellSize(cols) * rows as real
  }

  /** The grid's left edge: it is flush with the right margin. */
  function GridLeft(): real
  {
    PageWidth - ColumnWidth(GridColumns) - MarginRight
  }

  /** The grid covers columns 2 to 4 exactly: it starts at column 2's left
      edge, ends at column 4's right edge (the right margin), clears column
      1, and the three columns start one gap below it. */
  lemma GridSpansLastThreeColumns(top: real, rows: int, cols: int)
    requires cols > 0
    ensures var b := ColumnBounds(top, GridHeight(rows, cols));
      && GridLeft() == b[2].x
      && GridLeft() + cols as real * CellSize(cols) == b[4].x + ColumnWidth(1) == PageWidth - MarginRight
      && b[1].x + ColumnWidth(1) < GridLeft()
      && forall k :: 2 <= k < NumColumns ==> b[k].y == top + GridHeight(rows, cols) + ColumnGap
  {
  }
}
