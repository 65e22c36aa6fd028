# Crossword page layout, modelled in Dafny

`index.js` turns an xwordinfo-style puzzle description into a one-page PDF:
a header, the puzzle grid in the top right, and the clue lists flowed down
five column regions. This project models the layout core of that script and
proves properties of it:

- **Column geometry** (module `Geometry`, `geometry.dfy`): `columnWidth(n)`,
  the grid's cell size and height, the grid's left edge, and the five-entry
  column table. Coordinates are `real`.
- **Flow cursor** (module `Flow`, `flow.dfy`; method `Page.Layout.TextXY`):
  the overflow rule of `textXY`. Text stays in the current column when the
  measured text fits above the column's bottom. Otherwise the column index
  advances by exactly one and the new column's top is returned, without
  measuring again. Past the last column the result is the sentinel
  position, modelled as the `Sentinel` variant whose coordinates are (0, 0).
  The page then draws there, as the script does.
- **Clue parser** (module `ClueParser`, `clue_parser.dfy`): the split at the
  first `". "` with the semantics of JavaScript's `indexOf` and `substr`,
  including the case where there is no separator.
- **Grid cells** (module `Grid`, `grid.dfy`; methods `Page.Layout.DrawCell`
  and `DrawGrid`): flat index to (row, column) and to the cell's corner, and
  the cell's decoration: block fill, circle and number.
- **Clue section** (module `Flow` for the specification; `Page.Layout`
  methods `WriteHeading`, `WriteClue`, `WriteList`, `WriteLists` and
  `WriteClues` for the loops): across, then down. Each heading and each clue
  is placed through the cursor, the number in a 13-unit slot and the body
  beside it.

The page itself (`page.dfy`) is a class `Layout` with these fields: the fixed
column table `bounds`, the column index `col` (the script's global
`currentcol`), the drawing library's vertical cursor `y` (`doc.y`), and
`drawn`, the drawing commands issued so far. `WriteStr` states its new
state directly: one text command appended, the cursor at the library's
advance. Every other method's postcondition equates the new state with a
function of modules `Flow` or `Grid`, and the lemmas about those functions
carry the properties.

The drawing library is abstract and comes in through a `Metrics` value:
- `measure(str, width)` is `doc.heightOfString`;
- `advance(d)` is where the library leaves `doc.y` after drawing the text command `d`;
- `lineHeight` is what `doc.moveDown(1)` adds.

Points where the model follows what the code does rather than what its comments and names suggest:
- `textXY` does not move `doc.y` to the new column's top. It returns that top as the y to draw at, and the write that follows moves `doc.y`.
- After an overflow past the last column, the clue's number is drawn at (0, 0) and its body at (13, 0). The section headings are drawn at (0, 0) as well. Nothing is skipped.
- `gridnums` is read for every cell without a guard, so it is a required field here. An entry counts as a number when it is non-zero; entries past the end count as absent. The same holds for `circles`, which may be missing altogether.
- The body's vertical advance is whatever the library does after drawing it (`advance`). It is not a separately measured height.

## Model

| member | source | states |
|---|---|---|
| Geometry.ColumnWidth | index.js:17 | `columnWidth(n)`: n column widths of (612 - 72 - 72 - 4·25)/5 plus the n - 1 gaps of 25 between them; its meaning is stated by the two lemmas below |
| Geometry.ColumnWidthSpansTextWidth | index.js:17 | five columns with their four gaps are exactly the text width, 612 - 72 - 72 = 468 |
| Geometry.ColumnWidthJoin | index.js:17 | `a` columns, a gap and `b` columns have the width of `a + b` columns |
| Geometry.ColumnBounds | index.js:74-80 | five regions. Column k's left edge is 72 + k·(w + 25), so the edges strictly increase. Columns 0-1 start at the header bottom and columns 2-4 at header bottom + grid height + 25. Every column ends at 720 |
| Geometry.CellSize | index.js:40 | the cell side is positive, and `cols` cells span exactly `columnWidth(3)` |
| Geometry.GridHeight | index.js:41 | `gridheight`: `rows` cell sides; it is where columns 2-4 start, by `ColumnBounds` and `GridSpansLastThreeColumns` |
| Geometry.GridLeft | index.js:101 | the grid's left edge, 612 - columnWidth(3) - 72, flush with the right margin; placed by `GridSpansLastThreeColumns` |
| Geometry.GridSpansLastThreeColumns | index.js:101 | the grid's left edge (612 - columnWidth(3) - 72) is column 2's left edge. Its right edge is column 4's right edge and the right margin. Column 1 ends left of the grid, and columns 2-4 start 25 below the grid's bottom (lines 40-41, 77-79) |
| ClueParser.IndexFrom | index.js:140 | the result is the first index at or after `from` where the pattern occurs, or -1 when it occurs nowhere there |
| ClueParser.IndexOf | index.js:140 | `indexOf`: the first occurrence, or -1 when there is none |
| ClueParser.Substr | index.js:140-141 | JavaScript `substr(start, length)`: negative start from the end, clamped start, negative length gives nothing, end clamped; the two uses in the parser are pinned down by the two lemmas below |
| ClueParser.SubstrPrefix | index.js:140 | `substr(0, n)` is the first n characters, and the empty string for negative n |
| ClueParser.SubstrSuffix | index.js:141 | `substr(k)` drops the first k characters, or gives the empty string past the end |
| ClueParser.ParseClue | index.js:138-141 | the clue split: the number is a prefix of the clue and the text a suffix of it; the round trip and its converse below characterise it exactly |
| ClueParser.ParseClueRoundTrip | index.js:138-141 | for a number `n` without `". "` and any body `t` (which may contain `". "`), parsing `n + ". " + t` gives number `n` and text `t` |
| ClueParser.ParseClueSplits | index.js:139-141 | a clue containing `". "` is its parsed number, `". "` and its parsed text, and the number contains no `". "` |
| ClueParser.ParseClueWithoutSeparator | index.js:140-141 | without `". "` the number is empty and the text is the clue less its first two characters |
| ClueParser.ParseClueExample | index.js:139-141 | `"12. A sample clue"` parses to number `"12"` and text `"A sample clue"` |
| Flow.Place | index.js:84-97 | the column index stays or grows by one. A non-sentinel position lies in a valid column and has that column's left edge |
| Flow.PlaceFits | index.js:89-96 | text that fits is placed at the current column's left edge and the cursor's y, and the column is kept |
| Flow.PlaceOverflows | index.js:89-95 | text that does not fit moves the index exactly one column on. The result is that column's left edge and top, without re-measuring, or the sentinel when no column is left |
| Flow.PlaceSentinel | index.js:86-88 | once the index is past the last column, every call returns the sentinel and leaves the index unchanged |
| Flow.PlaceColumnRange | index.js:86-93 | the index never decreases and never passes the number of columns (5) |
| Flow.PlaceHeading | index.js:136 | a heading is one section-title text command with no width, placed through `Place` measured with no width; the column moves at most one on |
| Flow.PlaceClue | index.js:138-144 | a clue is two text commands: the parsed number in the 13-wide slot and the parsed body 13 to its right on the same line, both at the position `Place` gives for the body measured at columnWidth(1) - 13; the column moves at most one on |
| Flow.PlaceClues | index.js:137-145 | the clues of a list, one after another from where the previous one left the cursor; ordering stated by `PlaceCluesInOrder` |
| Flow.PlaceList | index.js:135-147 | one list: heading, clues, then one line down (`moveDown(1)`); ordering stated by `PlaceListInOrder` |
| Flow.PlaceLists | index.js:135 | the lists one after another; column range and sentinel behaviour stated by the lemmas below |
| Flow.ClueSection | index.js:134-147 | the section started at the top of column `col` with ACROSS then DOWN; ordering stated by `ClueSectionInOrder` |
| Flow.PlaceCluesInOrder | index.js:137-145 | each clue of a list gives two draws, in list order: the parsed number in the 13-wide slot, then the parsed body 13 to the right on the same line, wrapped at columnWidth(1) - 13 |
| Flow.PlaceListInOrder | index.js:135-147 | a list draws its heading first, then each of its clues in order |
| Flow.ClueSectionInOrder | index.js:134-147 | the section draws ACROSS, then every across clue in input order, then DOWN, then every down clue in input order. So all across clues precede all down clues |
| Flow.ClueSectionStart | index.js:134-136 | the section starts at the top of the first column: the ACROSS heading, when it fits, is drawn at that column's left edge and top y |
| Flow.ClueStaysBelow | index.js:142-144 | when the library never moves its cursor up by writing text, a clue that stays in its column has both its draws at the cursor's y, and the cursor ends no higher |
| Flow.PlaceCluesTopToBottom | index.js:137-145 | under the same assumption, a clue list that does not leave its column is drawn top to bottom: each number no higher than the one before, all between the starting and the final cursor y |
| Flow.PlaceCluesColumnRange | index.js:137-145 | placing clues never decreases the column index and keeps it within 0..5 |
| Flow.PlaceListsColumnRange | index.js:135-147 | the same holds across whole lists, headings included |
| Flow.PlaceCluesPastLastColumn | index.js:142-144 | past the last column a list of k clues makes 2k draws: clue j's number (draw 2j) at (0, 0) and its body (draw 2j + 1) at (13, 0); the index stays put |
| Flow.PlaceListPastLastColumn | index.js:136-146 | past the last column a list's heading is drawn at (0, 0), then its clues as above |
| Flow.PlaceListsPastLastColumn | index.js:135-147 | past the last column each list starts where the lists before it end (`DrawCount`), with its heading at (0, 0), each number at (0, 0) and each body at (13, 0); the index stays put |
| Flow.OverflowingClueStartsNextColumn | index.js:142 | a clue that does not fit is drawn at the top of the next column, not at the bottom of the current one |
| Grid.CellAt | index.js:106-107 | row and column satisfy i = row·cols + col with 0 <= col < cols |
| Grid.CellIndexBijection | index.js:105-107 | indices in [0, rows·cols) and cells in [0, rows) × [0, cols) correspond one to one |
| Grid.CellX | index.js:108 | the cell's left edge `pos.x + col·size` lies in the grid: the whole cell fits between the grid's left edge and columnWidth(3) to its right |
| Grid.CellY | index.js:108 | the cell's top edge `pos.y + row·size` is never above the grid's top, and a cell with index below rows·cols ends no lower than the grid's bottom (`pos.y + gridheight`, index.js:41) |
| Grid.CellsDistinct | index.js:108 | different indices give different cell corners |
| Grid.CellDecoration | index.js:108-127 | a cell makes 1 draw, plus 1 when circled, plus 2 when numbered, and nothing else. The square is filled iff the symbol is ".". A circle of radius size/2 - 0.5 is drawn iff circles exist and the entry is set. A half-cell white patch and then the number at +2, +2 are drawn iff the number entry is set |
| Grid.CellDraws | index.js:108-127 | what one cell draws, in order: square, circle, patch and number; stated by `CellDecoration` |
| Grid.CellPatch | index.js:121-124 | the number's white patch: half a cell square at the cell's corner inset by half the 0.5 stroke; placed by `GridPatchesAtNumberedCells` |
| Grid.GridDraws | index.js:105-128 | the cells' draws in index order; squares, numbers and number patches at grid level are stated by the three lemmas below |
| Grid.GridY | index.js:105-128 | `doc.y` after the grid: the advance after the last number written, or the incoming y when no cell is numbered |
| Grid.GridSquaresInOrder | index.js:105-114 | exactly one square per cell, in index order, at the cell's corner, filled iff the cell is a block |
| Grid.GridNumeralsAtNumberedCells | index.js:120-127 | every number drawn belongs to a numbered cell at that cell's corner + 2, and every numbered cell gets its number |
| Grid.GridPatchesAtNumberedCells | index.js:120-125 | every white patch drawn belongs to a numbered cell, half a cell square at that cell's corner + 0.25, and every numbered cell gets its patch |
| Page.Layout.constructor | index.js:74-80 | the page after the header: column table from the header bottom and grid height, column 0, cursor at the header bottom, nothing drawn |
| Page.Layout.TextXY | index.js:84-97 | the new index and the returned position are those of `Place` for the measured height. Only the index changes |
| Page.Layout.WriteStr | index.js:46-54 | appends the text command and moves the cursor to where the library leaves it |
| Page.Layout.DrawCell | index.js:106-127 | appends the cell's draws. The cursor moves only when a number is written |
| Page.Layout.DrawGrid | index.js:100-129 | appends the draws of every cell in index order, with the grid corner at the grid's left edge and the current y |
| Page.Layout.WriteHeading | index.js:136 | the cursor and the draws become those of `PlaceHeading` |
| Page.Layout.WriteClue | index.js:138-144 | the cursor and the draws become those of `PlaceClue` |
| Page.Layout.WriteList | index.js:135-147 | the cursor and the draws become those of `PlaceList`: heading, clues, one line down |
| Page.Layout.WriteLists | index.js:135 | the cursor and the draws become those of `PlaceLists` |
| Page.Layout.WriteClues | index.js:132-148 | the cursor is reset to the current column's top, and the result is that of `ClueSection` |
| Page.Render | index.js:40-148 | everything drawn is the grid's cells, then the ACROSS heading and clues, then the DOWN heading and clues, with 2 + 2·(number of clues) clue-section draws |

## Left out

- File system and command line (index.js:3-8, 31-38, 151). Reading the JSON, the output path, creating directories, the output stream and `doc.end()` are I/O. The puzzle is an input value.
- Drawing and text metrics of the PDF library. `doc.text`, `rect`, `circle` and `fill` become `Draw` commands in `drawn`. `lineWidth` (index.js:104) is not a command; the 0.5 stroke appears only in the circle's radius and the patch's offset. Fonts and sizes are not modelled; a text command's `Style` tag records which option set it was written with. Colours are not kept: a square's fill is the `filled` flag, and a patch is always white.
- `doc.heightOfString` measures with whatever font the previous write selected, and a heading, measured with no width (index.js:136), wraps at the width the library derives from its current x, which the previous write left. The model's `measure` is a function of the string and the width only, and sees neither the current font nor that x.
- `doc.moveDown(1)` adds one line of the current font. The model adds a fixed `lineHeight`.
- The header block (index.js:57-68) depends on the library's text advance and on `dateFormat`. Its bottom y is the input `top`.
- `decode` from the `unescape` package (index.js:138) is a foreign library. Clue strings are taken as already decoded.
- Style constants (index.js:23-28) only feed the drawing library. A `Style` tag records which one a text command uses.
- IEEE floating point: coordinates are exact reals. `~~(i / cols)` is integer division, since `i >= 0`.
- A puzzle with `cols == 0`: the script divides by zero (an infinite cell size). The model requires `cols > 0`.
- JavaScript truthiness on values other than integers (NaN, strings in `circles` or `gridnums`) is not modelled. Entries are integers, and 0 means absent.
- Strings are sequences of characters. UTF-16 code units and surrogate pairs are not distinguished.
- Flow.ClueStaysBelow and Flow.PlaceCluesTopToBottom assume `AdvancesDown` (writing text never moves the cursor up), because the library's `advance` is a parameter of the model, not something it can prove.
