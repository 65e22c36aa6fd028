/** The puzzle and the drawing of its grid: cell positions from a flat,
    row-major index, and each cell's decoration (block fill, circle, number). */
module Grid {
  import opened Surface
  import opened Geometry

  /** A puzzle as read from its JSON description. `grid` holds one symbol
      per cell, row by row ("." for a block); `gridnums` and `circles` are
      aligned with it, 0 meaning "no number" / "no circle", and entries
      past their end count as absent. The clue lists hold the clue strings
      already decoded. */
  datatype Puzzle = Puzzle(
    rows: int,
    cols: int,
    grid: seq<string>,
    gridnums: seq<int>,
    circles: Option<seq<int>>,
    across: seq<string>,
    down: seq<string>)

  /** The line width of the grid's strokes. */
  const Stroke: real := 0.5
  /** The offset of a cell number from the cell's top-left corner. */
  const NumberPadding: real := 2.0

  datatype CellIndex = CellIndex(row: int, col: int)

  /** The row and column of the cell at flat index `i`. */
  function CellAt(i: int, cols: int): (c: CellIndex)
    requires 0 <= i && cols > 0
    ensures 0 <= c.row && 0 <= c.col < cols
    ensures c.row * cols + c.col == i
  {
    CellIndex(i / cols, i % cols)
  }

  /** The flat index of the cell at (`row`, `col`). */
  function FlatIndex(row: int, col: int, cols: int): int
  {
    row * cols + col
  }

  lemma {:induction false} MulAtLeast(a: int, n: int)
    requires a >= 1 && n >= 0
    ensures a * n >= n
  {
    if a > 1 {
      MulAtLeast(a - 1, n);
      assert a * n == (a - 1) * n + n;
    }
  }

  lemma MulSign(a: int, n: int)
    requires n >= 0
    ensures a >= 0 ==> a * n >= 0
    ensures a >= 1 ==> a * n >= n
    ensures a <= -1 ==> a * n <= -n
  {
    if a >= 1 {
      MulAtLeast(a, n);
    } else if a <= -1 {
      MulAtLeast(-a, n);
      assert (-a) * n == -(a * n);
    }
  }

  /** Division by a positive number has one quotient and one remainder. */
  lemma QuotientUnique(q: int, r: int, q': int, r': int, n: int)
    requires n > 0 && 0 <= r < n && 0 <= r' < n && q * n + r == q' * n + r'
    ensures q == q' && r == r'
  {
    assert (q' - q) * n == r - r';
    MulSign(q' - q, n);
  }

  /** A flat index below `rows * cols` lies in one of the `rows` rows. */
  lemma CellRowBound(i: int, rows: int, cols: int)
    requires cols > 0 && 0 <= i < rows * cols
    ensures CellAt(i, cols).row < rows
  {
    var c := CellAt(i, cols);
    assert (c.row - rows) * cols == c.row * cols - rows * cols;
    MulSign(c.row - rows, cols);
  }

  /** The flat index of a cell of a `rows` by `cols` grid is below
      `rows * cols` and leads back to that cell. */
  lemma FlatIndexInverse(r: int, c: int, rows: int, cols: int)
    requires cols > 0 && 0 <= r < rows && 0 <= c < cols
    ensures 0 <= FlatIndex(r, c, cols) < rows * cols
    ensures CellAt(FlatIndex(r, c, cols), cols) == CellIndex(r, c)
  {
    MulAtLeast(rows - r, cols);
    assert (rows - r) * cols == rows * cols - r * cols;
    MulSign(r, cols);
    var k := CellAt(FlatIndex(r, c, cols), cols);
    QuotientUnique(k.row, k.col, r, c, cols);
  }

  /** Flat indices below `rows * cols` and cells of a `rows` by `cols` grid
      correspond one to one. */
  lemma CellIndexBijection(rows: int, cols: int)
    requires cols > 0
    ensures forall i :: 0 <= i < rows * cols ==> CellAt(i, cols).row < rows
    ensures forall r, c :: 0 <= r < rows && 0 <= c < cols ==>
      0 <= FlatIndex(r, c, cols) < rows * cols && CellAt(FlatIndex(r, c, cols), cols) == CellIndex(r, c)
  {
    forall i | 0 <= i < rows * cols
      ensures CellAt(i, cols).row < rows
    {
      CellRowBound(i, rows, cols);
    }
    forall r, c | 0 <= r < rows && 0 <= c < cols
      ensures 0 <= FlatIndex(r, c, cols) < rows * cols && CellAt(FlatIndex(r, c, cols), cols) == CellIndex(r, c)
    {
      FlatIndexInverse(r, c, rows, cols);
    }
  }

  /** The left edge of cell `i` of a grid whose left edge is `ox`. */
  function CellX(p: Puzzle, ox: real, i: int): (x: real)
    requires p.cols > 0 && 0 <= i
    ensures ox <= x && x + CellSize(p.cols) <= ox + ColumnWidth(GridColumns)
  {
    var c, s := CellAt(i, p.cols).col, CellSize(p.cols);
    MulAtLeastReal(p.cols - c - 1, s);
    assert (c + 1) as real * s + (p.cols - c - 1) as real * s == p.cols as real * s;
    ox + CellAt(i, p.cols).col as real * CellSize(p.cols)
  }

  /** The top edge of cell `i` of a grid whose top edge is `oy`. */
  function CellY(p: Puzzle, oy: real, i: int): (y: real)
    requires p.cols > 0 && 0 <= i
    ensures oy <= y
    ensures i < p.rows * p.cols ==> y + CellSize(p.cols) <= oy + GridHeight(p.rows, p.cols)
  {
    var r, s := CellAt(i, p.cols).row, CellSize(p.cols);
    MulAtLeastReal(r, s);
    RowInGrid(i, p.rows, p.cols);
    oy + r as real * s
  }

  /** A cell with index below `rows * cols` ends no lower than the grid's bottom. */
  lemma RowInGrid(i: int, rows: int, cols: int)
    requires cols > 0 && 0 <= i
    ensures i < rows * cols ==>
      (CellAt(i, cols).row + 1) as real * CellSize(cols) <= GridHeight(rows, cols)
  {
    if i < rows * cols {
      var r, s := CellAt(i, cols).row, CellSize(cols);
      CellRowBound(i, rows, cols);
      MulAtLeastReal(rows - r - 1, s);
      assert (r + 1) as real * s + (rows - r - 1) as real * s == rows as real * s;
    }
  }

  /** A non-negative count of a positive length is non-negative. */
  lemma MulAtLeastReal(k: int, s: real)
    requires k >= 0 && s > 0.0
    ensures k as real * s >= 0.0
  {
  }

  /** Different cells have different top-left corners. */
  lemma CellsDistinct(p: Puzzle, ox: real, oy: real, i: int, j: int)
    requires p.cols > 0 && 0 <= i && 0 <= j && i != j
    ensures CellX(p, ox, i) != CellX(p, ox, j) || CellY(p, oy, i) != CellY(p, oy, j)
  {
    var s := CellSize(p.cols);
    var a, b := CellAt(i, p.cols), CellAt(j, p.cols);
    if a.col == b.col {
      assert a.row != b.row;
      assert (a.row - b.row) as real * s != 0.0;
      assert a.row as real * s - b.row as real * s == (a.row - b.row) as real * s;
    } else {
      assert (a.col - b.col) as real * s != 0.0;
      assert a.col as real * s - b.col as real * s == (a.col - b.col) as real * s;
    }
  }

  /** The cell is a block: its symbol is ".". */
  predicate IsBlock(p: Puzzle, i: int)
    requires 0 <= i < |p.grid|
  {
    p.grid[i] == "."
  }

  /** The puzzle has circles and this cell's entry is set. */
  predicate Circled(p: Puzzle, i: int)
  {
    p.circles.Some? && 0 <= i < |p.circles.value| && p.circles.value[i] != 0
  }

  /** This cell's number is set. */
  predicate Numbered(p: Puzzle, i: int)
  {
    0 <= i < |p.gridnums| && p.gridnums[i] != 0
  }

  /** The number label of cell `i`, padded in from its top-left corner. */
  function CellNumeral(p: Puzzle, ox: real, oy: real, i: int): Draw
    requires p.cols > 0 && 0 <= i < |p.gridnums|
  {
    Numeral(p.gridnums[i], CellX(p, ox, i) + NumberPadding, CellY(p, oy, i) + NumberPadding)
  }

  /** The white patch under the number of cell `i`: half a cell square,
      inset by half the stroke from the cell's top-left corner. */
  function CellPatch(p: Puzzle, ox: real, oy: real, i: int): Draw
    requires p.cols > 0 && 0 <= i
  {
    Patch(CellX(p, ox, i) + Stroke / 2.0, CellY(p, oy, i) + Stroke / 2.0, CellSize(p.cols) / 2.0)
  }

  /** What is drawn for cell `i`, in order: its square (filled for a
      block), its circle, and the white patch and label of its number. */
  function CellDraws(p: Puzzle, ox: real, oy: real, i: int): seq<Draw>
    requires p.cols > 0 && 0 <= i < |p.grid|
  {
    var s := CellSize(p.cols);
    var x, y := CellX(p, ox, i), CellY(p, oy, i);
    [Square(x, y, s, IsBlock(p, i))]
    + (if Circled(p, i) then [Ring(x + s / 2.0, y + s / 2.0, s / 2.0 - Stroke)] else [])
    + (if Numbered(p, i) then [CellPatch(p, ox, oy, i), CellNumeral(p, ox, oy, i)] else [])
  }

  /** A cell is a filled square iff its symbol is "."; it is circled, with
      radius half a cell less the stroke, iff its circle entry is set; and it
      gets a half-cell white patch followed by its number label iff its
      number is set. */
  lemma CellDecoration(p: Puzzle, ox: real, oy: real, i: int)
    requires p.cols > 0 && 0 <= i < |p.grid|
    ensures var ds := CellDraws(p, ox, oy, i);
      var s, x, y := CellSize(p.cols), CellX(p, ox, i), CellY(p, oy, i);
      && |ds| == 1 + (if Circled(p, i) then 1 else 0) + (if Numbered(p, i) then 2 else 0)
      && ds[0] == Square(x, y, s, p.grid[i] == ".")
      && ((exists d :: d in ds && d.Ring?) <==> Circled(p, i))
      && (Circled(p, i) ==> ds[1] == Ring(x + s / 2.0, y + s / 2.0, s / 2.0 - Stroke))
      && ((exists d :: d in ds && d.Numeral?) <==> Numbered(p, i))
      && ((exists d :: d in ds && d.Patch?) <==> Numbered(p, i))
      && (Numbered(p, i) ==>
            ds[|ds| - 2] == Patch(x + Stroke / 2.0, y + Stroke / 2.0, s / 2.0)
            && ds[|ds| - 1] == Numeral(p.gridnums[i], x + NumberPadding, y + NumberPadding))
  {
    var ds := CellDraws(p, ox, oy, i);
    if Circled(p, i) {
      assert ds[1] in ds;
    }
    if Numbered(p, i) {
      assert ds[|ds| - 1] in ds && ds[|ds| - 2] in ds;
    }
  }

  /** The first `n` cells, drawn in index order. */
  function GridDraws(p: Puzzle, ox: real, oy: real, n: int): seq<Draw>
    requires p.cols > 0 && 0 <= n <= |p.grid|
  {
    if n == 0 then [] else GridDraws(p, ox, oy, n - 1) + CellDraws(p, ox, oy, n - 1)
  }

  /** The library's y after the first `n` cells: writing a cell number
      moves it; nothing else does. */
  function GridY(p: Puzzle, ox: real, oy: real, y: real, n: int, m: Metrics): real
    requires p.cols > 0 && 0 <= n <= |p.grid|
  {
    if n == 0 then y
    else if Numbered(p, n - 1) then m.advance(CellNumeral(p, ox, oy, n - 1))
    else GridY(p, ox, oy, y, n - 1, m)
  }

  /** The cell squares among some drawing commands, in order. */
  function Squares(ds: seq<Draw>): seq<Draw>
  {
    if ds == [] then [] else Squares(ds[..|ds| - 1]) + (if ds[|ds| - 1].Square? then [ds[|ds| - 1]] else [])
  }

  lemma {:induction false} SquaresAppend(a: seq<Draw>, b: seq<Draw>)
    ensures Squares(a + b) == Squares(a) + Squares(b)
    decreases |b|
  {
    if b == [] {
      assert a + b == a;
    } else {
      SquaresAppend(a, b[..|b| - 1]);
      assert (a + b)[..|a + b| - 1] == a + b[..|b| - 1];
    }
  }

  /** Of one cell's drawing commands only the first is a square. */
  lemma CellSquares(p: Puzzle, ox: real, oy: real, i: int)
    requires p.cols > 0 && 0 <= i < |p.grid|
    ensures Squares(CellDraws(p, ox, oy, i))
      == [Square(CellX(p, ox, i), CellY(p, oy, i), CellSize(p.cols), IsBlock(p, i))]
  {
    var ds := CellDraws(p, ox, oy, i);
    assert ds == [ds[0]] + ds[1..];
    SquaresAppend([ds[0]], ds[1..]);
    assert [ds[0]][..0] == [];
    NoSquares(ds[1..]);
  }

  /** Exactly one square is drawn per cell, in index order, at the cell's
      corner, filled iff the cell is a block. */
  lemma {:induction false} GridSquaresInOrder(p: Puzzle, ox: real, oy: real, n: int)
    requires p.cols > 0 && 0 <= n <= |p.grid|
    ensures |Squares(GridDraws(p, ox, oy, n))| == n
    ensures forall i :: 0 <= i < n ==>
      (Squares(GridDraws(p, ox, oy, n))[i]
        == Square(CellX(p, ox, i), CellY(p, oy, i), CellSize(p.cols), IsBlock(p, i)))
  {
    if n > 0 {
      GridSquaresInOrder(p, ox, oy, n - 1);
      var prev, cell := GridDraws(p, ox, oy, n - 1), CellDraws(p, ox, oy, n - 1);
      assert GridDraws(p, ox, oy, n) == prev + cell;
      SquaresAppend(prev, cell);
      CellSquares(p, ox, oy, n - 1);
      var sq := Squares(GridDraws(p, ox, oy, n));
      assert sq == Squares(prev) + Squares(cell);
      forall i | 0 <= i < n - 1
        ensures sq[i] == Square(CellX(p, ox, i), CellY(p, oy, i), CellSize(p.cols), IsBlock(p, i))
      {
        assert sq[i] == Squares(prev)[i];
      }
    }
  }

  lemma {:induction false} NoSquares(ds: seq<Draw>)
    requires forall k :: 0 <= k < |ds| ==> !ds[k].Square?
    ensures Squares(ds) == []
  {
    if ds != [] {
      NoSquares(ds[..|ds| - 1]);
    }
  }

  /** Cell numbers are drawn at exactly the numbered cells: every label
      drawn belongs to a numbered cell, and every numbered cell gets its
      label. */
  lemma {:induction false} GridNumeralsAtNumberedCells(p: Puzzle, ox: real, oy: real, n: int)
    requires p.cols > 0 && 0 <= n <= |p.grid|
    ensures forall d :: d in GridDraws(p, ox, oy, n) && d.Numeral? ==>
      exists i :: 0 <= i < n && Numbered(p, i) && d == CellNumeral(p, ox, oy, i)
    ensures forall i :: 0 <= i < n && Numbered(p, i) ==> CellNumeral(p, ox, oy, i) in GridDraws(p, ox, oy, n)
  {
    if n > 0 {
      GridNumeralsAtNumberedCells(p, ox, oy, n - 1);
      var ds := CellDraws(p, ox, oy, n - 1);
      CellDecoration(p, ox, oy, n - 1);
      forall d | d in ds && d.Numeral?
        ensures Numbered(p, n - 1) && d == CellNumeral(p, ox, oy, n - 1)
      {
      }
      if Numbered(p, n - 1) {
        assert CellNumeral(p, ox, oy, n - 1) == ds[|ds| - 1];
      }
    }
  }

  /** Number patches are drawn at exactly the numbered cells: every patch
      drawn belongs to a numbered cell, and every numbered cell gets its
      patch. */
  lemma {:induction false} GridPatchesAtNumberedCells(p: Puzzle, ox: real, oy: real, n: int)
    requires p.cols > 0 && 0 <= n <= |p.grid|
    ensures forall d :: d in GridDraws(p, ox, oy, n) && d.Patch? ==>
      exists i :: 0 <= i < n && Numbered(p, i) && d == CellPatch(p, ox, oy, i)
    ensures forall i :: 0 <= i < n && Numbered(p, i) ==> CellPatch(p, ox, oy, i) in GridDraws(p, ox, oy, n)
  {
    if n > 0 {
      GridPatchesAtNumberedCells(p, ox, oy, n - 1);
      var ds := CellDraws(p, ox, oy, n - 1);
      CellDecoration(p, ox, oy, n - 1);
      forall d | d in ds && d.Patch?
        ensures Numbered(p, n - 1) && d == CellPatch(p, ox, oy, n - 1)
      {
      }
      if Numbered(p, n - 1) {
        assert CellPatch(p, ox, oy, n - 1) == ds[|ds| - 2];
      }
    }
  }
}
