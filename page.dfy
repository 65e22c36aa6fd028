/** The page being laid out: the column table, the flow cursor, and the
    drawing commands issued so far. Drawing the grid and writing the clue
    section update them step by step; each step is proved to agree with the
    functions of modules Grid and Flow. */
module Page {
  import opened Surface
  import opened Geometry
  import opened ClueParser
  import opened Flow
  import opened Grid

  class Layout {
    /** The five column regions; fixed once the header and the grid's size are known. */
    const bounds: seq<ColumnBound>
    /** The column clue text currently flows into. */
    var col: int
    /** The drawing library's vertical cursor. */
    var y: real
    /** Everything drawn on the page so far, in order. */
    var drawn: seq<Draw>

    ghost predicate Valid()
      reads this
    {
      0 <= col <= |bounds|
    }

    /** The page once its header is written: `top` is the y just below the
        header, where the grid and the first two columns start. */
    constructor (top: real, p: Puzzle)
      requires p.cols > 0
      ensures Valid()
      ensures bounds == ColumnBounds(top, GridHeight(p.rows, p.cols))
      ensures col == 0 && y == top && drawn == []
    {
      bounds := ColumnBounds(top, GridHeight(p.rows, p.cols));
      col := 0;
      y := top;
      drawn := [];
    }

    /** Where to write `str`: at the cursor if it fits in the current
        column, otherwise at the top of the next column, which becomes the
        current one; past the last column, the sentinel. Only the column
        index changes. */
    method TextXY(str: string, width: Option<real>, m: Metrics) returns (pos: Position)
      requires Valid()
      modifies this`col
      ensures Valid()
      ensures Placement(col, pos) == Place(bounds, old(col), y, m.measure(str, width))
    {
      var at := y;
      if !(col < |bounds|) {
        return Sentinel;
      }
      if y + m.measure(str, width) > bounds[col].y2 {
        col := col + 1;
        if !(col < |bounds|) {
          return Sentinel;
        }
        at := bounds[col].y;
      }
      return At(bounds[col].x, at);
    }

    /** Writes `str` at (`x`, `at`); the library leaves its cursor below it. */
    method WriteStr(str: string, x: real, at: real, style: Style, width: Option<real>, m: Metrics)
      modifies this`y, this`drawn
      ensures drawn == old(drawn) + [Text(str, x, at, style, width)]
      ensures y == m.advance(Text(str, x, at, style, width))
    {
      var d := Text(str, x, at, style, width);
      drawn := drawn + [d];
      y := m.advance(d);
    }

    /** Draws cell `i` of a grid whose top-left corner is (`ox`, `oy`):
        its square, filled for a block; its circle; its number's white patch
        and label. Writing the label moves the library's cursor. */
    method DrawCell(p: Puzzle, ox: real, oy: real, i: int, m: Metrics)
      requires p.cols > 0 && 0 <= i < |p.grid|
      modifies this`y, this`drawn
      ensures drawn == old(drawn) + CellDraws(p, ox, oy, i)
      ensures y == if Numbered(p, i) then m.advance(CellNumeral(p, ox, oy, i)) else old(y)
    {
      var size := CellSize(p.cols);
      var x, top := CellX(p, ox, i), CellY(p, oy, i);
      var square := [Square(x, top, size, p.grid[i] == ".")];
      var ring := [];
      if Circled(p, i) {
        ring := [Ring(x + size / 2.0, top + size / 2.0, size / 2.0 - Stroke)];
      }
      var number := [];
      if Numbered(p, i) {
        var numeral := Numeral(p.gridnums[i], x + NumberPadding, top + NumberPadding);
        number := [Patch(x + Stroke / 2.0, top + Stroke / 2.0, size / 2.0), numeral];
        y := m.advance(numeral);
      }
      drawn := drawn + square + ring + number;
    }

    /** Draws every cell of the grid, in index order, with the grid's
        top-left corner at the grid's left edge and the current y. */
    method DrawGrid(p: Puzzle, m: Metrics)
      requires p.cols > 0
      modifies this`y, this`drawn
      ensures drawn == old(drawn) + GridDraws(p, GridLeft(), old(y), |p.grid|)
      ensures y == GridY(p, GridLeft(), old(y), old(y), |p.grid|, m)
    {
      var ox, oy := GridLeft(), y;
      ghost var before := drawn;
      var i := 0;
      while i < |p.grid|
        invariant 0 <= i <= |p.grid|
        invariant drawn == before + GridDraws(p, ox, oy, i)
        invariant y == GridY(p, ox, oy, oy, i, m)
      {
        DrawCell(p, ox, oy, i, m);
        i := i + 1;
      }
    }

    /** Writes a section heading where the cursor places it. */
    method WriteHeading(heading: string, m: Metrics)
      requires Valid()
      modifies this`col, this`y, this`drawn
      ensures Valid()
      ensures var f := PlaceHeading(bounds, Cursor(old(col), old(y)), heading, m);
        col == f.cursor.col && y == f.cursor.y && drawn == old(drawn) + f.draws
    {
      var pos := TextXY(heading, None, m);
      WriteStr(heading, pos.X(), pos.Y(), SectionTitle, None, m);
    }

    /** Writes one clue: the body is measured at the clue width and placed
        through the cursor; the number goes at that position in the number
        slot and the body beside it. */
    method WriteClue(raw: string, m: Metrics)
      requires Valid()
      modifies this`col, this`y, this`drawn
      ensures Valid()
      ensures var f := PlaceClue(bounds, Cursor(old(col), old(y)), raw, m);
        col == f.cursor.col && y == f.cursor.y && drawn == old(drawn) + f.draws
    {
      var clue := ParseClue(raw);
      var pos := TextXY(clue.text, Some(ClueWidth()), m);
      WriteStr(clue.num, pos.X(), pos.Y(), ClueNumber, Some(NumWidth), m);
      WriteStr(clue.text, pos.X() + NumWidth, pos.Y(), ClueBody, Some(ClueWidth()), m);
    }

    /** Writes one list: its heading, its clues in order, then moves down one line. */
    method WriteList(l: ClueList, m: Metrics)
      requires Valid()
      modifies this`col, this`y, this`drawn
      ensures Valid()
      ensures var f := PlaceList(bounds, Cursor(old(col), old(y)), l, m);
        col == f.cursor.col && y == f.cursor.y && drawn == old(drawn) + f.draws
    {
      WriteHeading(l.heading, m);
      ghost var c1, d1 := Cursor(col, y), drawn;
      var i := 0;
      while i < |l.clues|
        invariant 0 <= i <= |l.clues|
        invariant Valid()
        invariant Cursor(col, y) == PlaceClues(bounds, c1, l.clues[..i], m).cursor
        invariant drawn == d1 + PlaceClues(bounds, c1, l.clues[..i], m).draws
      {
        ghost var mark := drawn;
        WriteClue(l.clues[i], m);
        PlaceCluesStep(bounds, c1, l.clues, i, m, d1, mark, drawn);
        i := i + 1;
      }
      assert l.clues[..|l.clues|] == l.clues;
      y := y + m.lineHeight;
    }

    /** Writes several lists, one after another. */
    method WriteLists(lists: seq<ClueList>, m: Metrics)
      requires Valid()
      modifies this`col, this`y, this`drawn
      ensures Valid()
      ensures var f := PlaceLists(bounds, Cursor(old(col), old(y)), lists, m);
        col == f.cursor.col && y == f.cursor.y && drawn == old(drawn) + f.draws
    {
      ghost var start, before := Cursor(col, y), drawn;
      var j := 0;
      while j < |lists|
        invariant 0 <= j <= |lists|
        invariant Valid()
        invariant Cursor(col, y) == PlaceLists(bounds, start, lists[..j], m).cursor
        invariant drawn == before + PlaceLists(bounds, start, lists[..j], m).draws
      {
        ghost var mark := drawn;
        WriteList(lists[j], m);
        PlaceListsStep(bounds, start, lists, j, m, before, mark, drawn);
        j := j + 1;
      }
      assert lists[..|lists|] == lists;
      assert Cursor(col, y) == PlaceLists(bounds, start, lists, m).cursor;
    }

    /** Writes the clue section from the top of the current column: the
        across list, then the down list. */
    method WriteClues(across: seq<string>, down: seq<string>, m: Metrics)
      requires Valid() && col < |bounds|
      modifies this`col, this`y, this`drawn
      ensures Valid()
      ensures var f := ClueSection(bounds, old(col), across, down, m);
        col == f.cursor.col && y == f.cursor.y && drawn == old(drawn) + f.draws
    {
      y := bounds[col].y;
      WriteLists(Directions(across, down), m);
    }
  }

  /** Lays out a puzzle below a header ending at `top`: the grid, then the
      clue section from the top of the first column. Returns everything
      drawn: the grid's cells in index order, then the across heading and
      clues, then the down heading and clues. */
  method Render(top: real, p: Puzzle, m: Metrics) returns (drawn: seq<Draw>)
    requires p.cols > 0
    ensures var g := GridDraws(p, GridLeft(), top, |p.grid|);
      var b := ColumnBounds(top, GridHeight(p.rows, p.cols));
      && drawn == g + ClueSection(b, 0, p.across, p.down, m).draws
      && |drawn| == |g| + 2 + 2 * |p.across| + 2 * |p.down|
      && HeadingDrawn(drawn[|g|], "ACROSS")
      && HeadingDrawn(drawn[|g| + 1 + 2 * |p.across|], "DOWN")
  {
    var page := new Layout(top, p);
    page.DrawGrid(p, m);
    page.WriteClues(p.across, p.down, m);
    drawn := page.drawn;
    ClueSectionInOrder(page.bounds, 0, p.across, p.down, m);
  }
}
