/** The column-flow rule and the clue section it drives, as functions.

    A cursor (current column, current y) walks the five column regions left
    to right. Text is placed at the cursor when it fits above the column's
    bottom; otherwise the cursor moves to the top of the next column, and
    past the last column placement yields the sentinel position (0, 0). */
module Flow {
  import opened Surface
  import opened Geometry
  import opened ClueParser

  /** The width of the slot a clue's number is written in. */
  const NumWidth: real := 13.0

  /** The width a clue's body wraps at: one column less the number slot. */
  function ClueWidth(): real
  {
    ColumnWidth(1) - NumWidth
  }

  /** Where a string goes: a point in a column, or the sentinel returned
      once every column is used up, whose coordinates are (0, 0). */
  datatype Position = At(x: real, y: real) | Sentinel
  {
    function X(): real { if At? then x else 0.0 }
    function Y(): real { if At? then y else 0.0 }
  }

  /** The column index after a placement, and the position it yields. */
  datatype Placement = Placement(col: int, pos: Position)

  /** Placing text of height `h` with the cursor in column `col` at `y`.
      The y of the cursor is not changed here: drawing the text moves it. */
  function Place(b: seq<ColumnBound>, col: int, y: real, h: real): (r: Placement)
    ensures r.col == col || r.col == col + 1
    ensures r.pos.At? ==> 0 <= r.col < |b| && r.pos.x == b[r.col].x
  {
    if !(0 <= col < |b|) then Placement(col, Sentinel)
    else if y + h > b[col].y2 then
      if col + 1 < |b| then Placement(col + 1, At(b[col + 1].x, b[col + 1].y))
      else Placement(col + 1, Sentinel)
    else Placement(col, At(b[col].x, y))
  }

  /** Text that fits stays in the column, at the cursor's y. */
  lemma PlaceFits(b: seq<ColumnBound>, col: int, y: real, h: real)
    requires 0 <= col < |b| && y + h <= b[col].y2
    ensures Place(b, col, y, h) == Placement(col, At(b[col].x, y))
  {
  }

  /** Text that does not fit moves the cursor exactly one column on, to
      that column's top, whether or not it fits there; past the last
      column the result is the sentinel. */
  lemma PlaceOverflows(b: seq<ColumnBound>, col: int, y: real, h: real)
    requires 0 <= col < |b| && y + h > b[col].y2
    ensures Place(b, col, y, h).col == col + 1
    ensures Place(b, col, y, h).pos ==
      if col + 1 < |b| then At(b[col + 1].x, b[col + 1].y) else Sentinel
  {
  }

  /** Once the cursor is past the last column every placement is the
      sentinel and the cursor stays where it is. */
  lemma PlaceSentinel(b: seq<ColumnBound>, col: int, y: real, h: real)
    requires col >= |b|
    ensures Place(b, col, y, h) == Placement(col, Sentinel)
  {
  }

  /** The column index never decreases and never passes the number of columns. */
  lemma PlaceColumnRange(b: seq<ColumnBound>, col: int, y: real, h: real)
    requires 0 <= col <= |b|
    ensures col <= Place(b, col, y, h).col <= |b|
  {
  }

  /** The flow state: the current column and the drawing library's y. */
  datatype Cursor = Cursor(col: int, y: real)

  /** A cursor after some placements, with what they drew, in order. */
  datatype Placed = Placed(cursor: Cursor, draws: seq<Draw>)

  /** A heading and the clue strings listed under it. */
  datatype ClueList = ClueList(heading: string, clues: seq<string>)

  /** The clue section: the across list, then the down list, each headed by
      its direction's name in upper case. */
  function Directions(across: seq<string>, down: seq<string>): seq<ClueList>
  {
    [ClueList("ACROSS", across), ClueList("DOWN", down)]
  }

  /** A heading goes through the cursor like any text (measured with no
      width) and is drawn at the position it returns. */
  function PlaceHeading(b: seq<ColumnBound>, c: Cursor, heading: string, m: Metrics): (f: Placed)
    ensures |f.draws| == 1 && HeadingDrawn(f.draws[0], heading)
    ensures c.col <= f.cursor.col <= c.col + 1
  {
    var p := Place(b, c.col, c.y, m.measure(heading, None));
    var d := Text(heading, p.pos.X(), p.pos.Y(), SectionTitle, None);
    Placed(Cursor(p.col, m.advance(d)), [d])
  }

  /** A clue's body is measured at the clue width and placed through the
      cursor; the number is drawn at that position in its slot and the body
      beside it, at the same y. The cursor's y ends below the body. */
  function PlaceClue(b: seq<ColumnBound>, c: Cursor, raw: string, m: Metrics): (f: Placed)
    ensures |f.draws| == 2 && ClueDrawn(f.draws[0], f.draws[1], raw)
    ensures c.col <= f.cursor.col <= c.col + 1
  {
    var clue := ParseClue(raw);
    var p := Place(b, c.col, c.y, m.measure(clue.text, Some(ClueWidth())));
    var num := Text(clue.num, p.pos.X(), p.pos.Y(), ClueNumber, Some(NumWidth));
    var body := Text(clue.text, p.pos.X() + NumWidth, p.pos.Y(), ClueBody, Some(ClueWidth()));
    Placed(Cursor(p.col, m.advance(body)), [num, body])
  }

  /** The clues of one list, placed one after another in list order. */
  function PlaceClues(b: seq<ColumnBound>, c: Cursor, cs: seq<string>, m: Metrics): Placed
    decreases |cs|
  {
    if cs == [] then Placed(c, [])
    else
      var f := PlaceClues(b, c, cs[..|cs| - 1], m);
      var g := PlaceClue(b, f.cursor, cs[|cs| - 1], m);
      Placed(g.cursor, f.draws + g.draws)
  }

  /** One list: its heading, its clues, then one line of space. */
  function PlaceList(b: seq<ColumnBound>, c: Cursor, l: ClueList, m: Metrics): Placed
  {
    var h := PlaceHeading(b, c, l.heading, m);
    var f := PlaceClues(b, h.cursor, l.clues, m);
    Placed(Cursor(f.cursor.col, f.cursor.y + m.lineHeight), h.draws + f.draws)
  }

  /** Several lists, one after another. */
  function PlaceLists(b: seq<ColumnBound>, c: Cursor, ls: seq<ClueList>, m: Metrics): Placed
    decreases |ls|
  {
    if ls == [] then Placed(c, [])
    else
      var f := PlaceLists(b, c, ls[..|ls| - 1], m);
      var g := PlaceList(b, f.cursor, ls[|ls| - 1], m);
      Placed(g.cursor, f.draws + g.draws)
  }

  /** The whole clue section, started at the top of column `col`. */
  function ClueSection(b: seq<ColumnBound>, col: int, across: seq<string>, down: seq<string>, m: Metrics): Placed
    requires 0 <= col < |b|
  {
    PlaceLists(b, Cursor(col, b[col].y), Directions(across, down), m)
  }

  /** Placing one more clue of a list continues from where the previous
      ones left the cursor; `before`, `mid` and `after` are the draws before
      the list, after `i` of its clues and after one more. */
  lemma PlaceCluesStep(b: seq<ColumnBound>, c: Cursor, cs: seq<string>, i: int, m: Metrics,
                       before: seq<Draw>, mid: seq<Draw>, after: seq<Draw>)
    requires 0 <= i < |cs|
    requires mid == before + PlaceClues(b, c, cs[..i], m).draws
    requires after == mid + PlaceClue(b, PlaceClues(b, c, cs[..i], m).cursor, cs[i], m).draws
    ensures PlaceClues(b, c, cs[..i + 1], m).cursor
      == PlaceClue(b, PlaceClues(b, c, cs[..i], m).cursor, cs[i], m).cursor
    ensures after == before + PlaceClues(b, c, cs[..i + 1], m).draws
  {
    assert cs[..i + 1][..i] == cs[..i];
  }

  /** Placing one more list continues from where the previous ones left
      the cursor; `before`, `mid` and `after` are the draws before the
      lists, after `j` of them and after one more. */
  lemma PlaceListsStep(b: seq<ColumnBound>, c: Cursor, ls: seq<ClueList>, j: int, m: Metrics,
                       before: seq<Draw>, mid: seq<Draw>, after: seq<Draw>)
    requires 0 <= j < |ls|
    requires mid == before + PlaceLists(b, c, ls[..j], m).draws
    requires after == mid + PlaceList(b, PlaceLists(b, c, ls[..j], m).cursor, ls[j], m).draws
    ensures PlaceLists(b, c, ls[..j + 1], m).cursor
      == PlaceList(b, PlaceLists(b, c, ls[..j], m).cursor, ls[j], m).cursor
    ensures after == before + PlaceLists(b, c, ls[..j + 1], m).draws
  {
    assert ls[..j + 1][..j] == ls[..j];
  }

  /** `num` and `body` are how the clue `raw` is drawn: its number in the
      number slot and its body one slot to the right, on the same line. */
  predicate ClueDrawn(num: Draw, body: Draw, raw: string)
  {
    var clue := ParseClue(raw);
    && num.Text?
    && num == Text(clue.num, num.x, num.y, ClueNumber, Some(NumWidth))
    && body == Text(clue.text, num.x + NumWidth, num.y, ClueBody, Some(ClueWidth()))
  }

  /** `d` draws `heading` as a section heading. */
  predicate HeadingDrawn(d: Draw, heading: string)
  {
    d.Text? && d.str == heading && d.style == SectionTitle && d.width == None
  }

  /** A list's clues are drawn two commands each, in list order. */
  lemma {:induction false} PlaceCluesInOrder(b: seq<ColumnBound>, c: Cursor, cs: seq<string>, m: Metrics)
    ensures |PlaceClues(b, c, cs, m).draws| == 2 * |cs|
    ensures forall k :: 0 <= k < |cs| ==>
      ClueDrawn(PlaceClues(b, c, cs, m).draws[2 * k], PlaceClues(b, c, cs, m).draws[2 * k + 1], cs[k])
  {
    if cs != [] {
      var init := cs[..|cs| - 1];
      PlaceCluesInOrder(b, c, init, m);
      var f := PlaceClues(b, c, init, m);
      var g := PlaceClue(b, f.cursor, cs[|cs| - 1], m);
      var ds := PlaceClues(b, c, cs, m).draws;
      assert ds == f.draws + g.draws;
      forall k | 0 <= k < |cs|
        ensures ClueDrawn(ds[2 * k], ds[2 * k + 1], cs[k])
      {
        if k < |init| {
          assert ds[2 * k] == f.draws[2 * k] && ds[2 * k + 1] == f.draws[2 * k + 1];
          assert cs[k] == init[k];
        } else {
          assert ds[2 * k] == g.draws[0] && ds[2 * k + 1] == g.draws[1];
        }
      }
    }
  }

  /** A list draws its heading and then each of its clues, in order. */
  lemma PlaceListInOrder(b: seq<ColumnBound>, c: Cursor, l: ClueList, m: Metrics)
    ensures var ds := PlaceList(b, c, l, m).draws;
      && |ds| == 1 + 2 * |l.clues|
      && HeadingDrawn(ds[0], l.heading)
      && forall k :: 0 <= k < |l.clues| ==> ClueDrawn(ds[1 + 2 * k], ds[2 + 2 * k], l.clues[k])
  {
    var h := PlaceHeading(b, c, l.heading, m);
    var f := PlaceClues(b, h.cursor, l.clues, m);
    PlaceCluesInOrder(b, h.cursor, l.clues, m);
    var ds := PlaceList(b, c, l, m).draws;
    assert ds == h.draws + f.draws;
    forall k | 0 <= k < |l.clues|
      ensures ClueDrawn(ds[1 + 2 * k], ds[2 + 2 * k], l.clues[k])
    {
      assert ds[1 + 2 * k] == f.draws[2 * k] && ds[2 + 2 * k] == f.draws[2 * k + 1];
    }
  }

  /** Two lists are drawn one after the other. */
  lemma PlaceListsPair(b: seq<ColumnBound>, c: Cursor, first: ClueList, second: ClueList, m: Metrics)
    ensures var fa := PlaceList(b, c, first, m);
      PlaceLists(b, c, [first, second], m).draws == fa.draws + PlaceList(b, fa.cursor, second, m).draws
  {
    var ls := [first, second];
    var fa := PlaceList(b, c, first, m);
    assert ls[..1][..0] == [] && ls[..1] == [first] && ls[1] == second;
    assert PlaceLists(b, c, [first], m) == Placed(fa.cursor, [] + fa.draws);
    assert [] + fa.draws == fa.draws;
  }

  /** The clue section draws the across heading, every across clue in
      order, the down heading and every down clue in order; so every across
      clue comes before every down clue. */
  lemma ClueSectionInOrder(b: seq<ColumnBound>, col: int, across: seq<string>, down: seq<string>, m: Metrics)
    requires 0 <= col < |b|
    ensures var ds := ClueSection(b, col, across, down, m).draws;
      && |ds| == 2 + 2 * |across| + 2 * |down|
      && HeadingDrawn(ds[0], "ACROSS")
      && (forall k :: 0 <= k < |across| ==> ClueDrawn(ds[1 + 2 * k], ds[2 + 2 * k], across[k]))
      && HeadingDrawn(ds[1 + 2 * |across|], "DOWN")
      && (forall k :: 0 <= k < |down| ==>
            ClueDrawn(ds[2 + 2 * |across| + 2 * k], ds[3 + 2 * |across| + 2 * k], down[k]))
  {
    var c0 := Cursor(col, b[col].y);
    var la, ld := ClueList("ACROSS", across), ClueList("DOWN", down);
    var fa := PlaceList(b, c0, la, m);
    var fd := PlaceList(b, fa.cursor, ld, m);
    PlaceListsPair(b, c0, la, ld, m);
    PlaceListInOrder(b, c0, la, m);
    PlaceListInOrder(b, fa.cursor, ld, m);
    var ds := ClueSection(b, col, across, down, m).draws;
    assert ds == fa.draws + fd.draws;
    var n := |fa.draws|;
    assert n == 1 + 2 * |across|;
    forall k | 0 <= k < |across|
      ensures ClueDrawn(ds[1 + 2 * k], ds[2 + 2 * k], across[k])
    {
      assert ds[1 + 2 * k] == fa.draws[1 + 2 * k] && ds[2 + 2 * k] == fa.draws[2 + 2 * k];
    }
    assert ds[n] == fd.draws[0];
    forall k | 0 <= k < |down|
      ensures ClueDrawn(ds[2 + 2 * |across| + 2 * k], ds[3 + 2 * |across| + 2 * k], down[k])
    {
      assert ds[n + 1 + 2 * k] == fd.draws[1 + 2 * k];
      assert ds[n + 2 + 2 * k] == fd.draws[2 + 2 * k];
    }
  }

  /** The section starts at the top of its column: when the across heading
      fits there, it is drawn at that column's left edge and top. */
  lemma ClueSectionStart(b: seq<ColumnBound>, col: int, across: seq<string>, down: seq<string>, m: Metrics)
    requires 0 <= col < |b|
    requires b[col].y + m.measure("ACROSS", None) <= b[col].y2
    ensures var ds := ClueSection(b, col, across, down, m).draws;
      |ds| > 0 && ds[0].Text? && ds[0].x == b[col].x && ds[0].y == b[col].y
  {
    var c0 := Cursor(col, b[col].y);
    var la, ld := ClueList("ACROSS", across), ClueList("DOWN", down);
    PlaceListsPair(b, c0, la, ld, m);
    var h := PlaceHeading(b, c0, "ACROSS", m);
    assert PlaceList(b, c0, la, m).draws == h.draws + PlaceClues(b, h.cursor, across, m).draws;
  }

  /** The library never moves its cursor up by writing text. */
  ghost predicate AdvancesDown(m: Metrics)
  {
    forall d: Draw :: d.Text? ==> m.advance(d) >= d.y
  }

  /** A clue that stays in the cursor's column is drawn at the cursor's y,
      and the cursor ends no higher. */
  lemma ClueStaysBelow(b: seq<ColumnBound>, c: Cursor, raw: string, m: Metrics)
    requires 0 <= c.col < |b| && AdvancesDown(m)
    ensures var f := PlaceClue(b, c, raw, m);
      f.cursor.col == c.col ==> f.draws[0].y == c.y && f.draws[1].y == c.y && f.cursor.y >= c.y
  {
  }

  /** Within one column clues go top to bottom: when a list of clues does
      not leave the cursor's column, each clue is drawn no higher than the
      one before it, all of them between the starting y and the final y. */
  lemma {:induction false} PlaceCluesTopToBottom(b: seq<ColumnBound>, c: Cursor, cs: seq<string>, m: Metrics)
    requires 0 <= c.col < |b| && AdvancesDown(m)
    ensures var f := PlaceClues(b, c, cs, m);
      && |f.draws| == 2 * |cs|
      && (forall k :: 0 <= k < |cs| ==> f.draws[2 * k].Text?)
      && (f.cursor.col == c.col ==>
            && f.cursor.y >= c.y
            && (forall k :: 0 <= k < |cs| ==> c.y <= f.draws[2 * k].y <= f.cursor.y)
            && (forall j, k :: 0 <= j < k < |cs| ==> f.draws[2 * j].y <= f.draws[2 * k].y))
  {
    PlaceCluesInOrder(b, c, cs, m);
    if cs != [] {
      var init := cs[..|cs| - 1];
      PlaceCluesTopToBottom(b, c, init, m);
      PlaceCluesColumnRange(b, c, init, m);
      var f := PlaceClues(b, c, init, m);
      var g := PlaceClue(b, f.cursor, cs[|cs| - 1], m);
      var ds := PlaceClues(b, c, cs, m).draws;
      assert ds == f.draws + g.draws;
      if g.cursor.col == c.col {
        assert f.cursor.col == c.col;
        ClueStaysBelow(b, f.cursor, cs[|cs| - 1], m);
        assert ds[2 * |init|] == g.draws[0];
        forall k | 0 <= k < |init|
          ensures ds[2 * k] == f.draws[2 * k]
        {
        }
      }
    }
  }

  /** Through a list of clues the column index never decreases and stays
      within the columns. */
  lemma {:induction false} PlaceCluesColumnRange(b: seq<ColumnBound>, c: Cursor, cs: seq<string>, m: Metrics)
    requires 0 <= c.col <= |b|
    ensures c.col <= PlaceClues(b, c, cs, m).cursor.col <= |b|
  {
    if cs != [] {
      PlaceCluesColumnRange(b, c, cs[..|cs| - 1], m);
    }
  }

  /** Through whole lists, headings included, the same holds. */
  lemma {:induction false} PlaceListsColumnRange(b: seq<ColumnBound>, c: Cursor, ls: seq<ClueList>, m: Metrics)
    requires 0 <= c.col <= |b|
    ensures c.col <= PlaceLists(b, c, ls, m).cursor.col <= |b|
  {
    if ls != [] {
      var init := ls[..|ls| - 1];
      PlaceListsColumnRange(b, c, init, m);
      var f := PlaceLists(b, c, init, m);
      var h := PlaceHeading(b, f.cursor, ls[|ls| - 1].heading, m);
      PlaceCluesColumnRange(b, h.cursor, ls[|ls| - 1].clues, m);
    }
  }

  /** `d` is text written at the sentinel position itself, (0, 0). */
  predicate AtOrigin(d: Draw)
  {
    d.Text? && d.x == 0.0 && d.y == 0.0
  }

  /** `d` is text written one number slot right of the sentinel, (13, 0). */
  predicate BesideOrigin(d: Draw)
  {
    d.Text? && d.x == NumWidth && d.y == 0.0
  }

  /** Past the last column every clue's number is drawn at (0, 0) and its
      body at (13, 0), and the cursor's column no longer moves. */
  lemma {:induction false} PlaceCluesPastLastColumn(b: seq<ColumnBound>, c: Cursor, cs: seq<string>, m: Metrics)
    requires c.col >= |b|
    ensures PlaceClues(b, c, cs, m).cursor.col == c.col
    ensures |PlaceClues(b, c, cs, m).draws| == 2 * |cs|
    ensures forall k :: 0 <= k < |cs| ==>
      AtOrigin(PlaceClues(b, c, cs, m).draws[2 * k]) && BesideOrigin(PlaceClues(b, c, cs, m).draws[2 * k + 1])
  {
    if cs != [] {
      var init := cs[..|cs| - 1];
      PlaceCluesPastLastColumn(b, c, init, m);
      var f := PlaceClues(b, c, init, m);
      var g := PlaceClue(b, f.cursor, cs[|cs| - 1], m);
      var ds := PlaceClues(b, c, cs, m).draws;
      assert ds == f.draws + g.draws;
      forall k | 0 <= k < |cs|
        ensures AtOrigin(ds[2 * k]) && BesideOrigin(ds[2 * k + 1])
      {
        if k < |init| {
          assert ds[2 * k] == f.draws[2 * k] && ds[2 * k + 1] == f.draws[2 * k + 1];
        } else {
          assert ds[2 * k] == g.draws[0] && ds[2 * k + 1] == g.draws[1];
        }
      }
    }
  }

  /** The number of draws several lists make: each its heading and two per clue. */
  function DrawCount(ls: seq<ClueList>): nat
    decreases |ls|
  {
    if ls == [] then 0 else DrawCount(ls[..|ls| - 1]) + 1 + 2 * |ls[|ls| - 1].clues|
  }

  /** From index `start` on, `ds` holds list `l` drawn at the sentinel: the
      heading at (0, 0), then each clue's number at (0, 0) and body at (13, 0). */
  predicate ListAtSentinel(ds: seq<Draw>, start: int, l: ClueList)
  {
    && 0 <= start && start + 1 + 2 * |l.clues| <= |ds|
    && AtOrigin(ds[start])
    && forall k :: 0 <= k < |l.clues| ==> AtOrigin(ds[start + 1 + 2 * k]) && BesideOrigin(ds[start + 2 + 2 * k])
  }

  /** Past the last column one list is drawn at the sentinel, heading first. */
  lemma PlaceListPastLastColumn(b: seq<ColumnBound>, c: Cursor, l: ClueList, m: Metrics)
    requires c.col >= |b|
    ensures PlaceList(b, c, l, m).cursor.col == c.col
    ensures |PlaceList(b, c, l, m).draws| == 1 + 2 * |l.clues|
    ensures ListAtSentinel(PlaceList(b, c, l, m).draws, 0, l)
  {
    var h := PlaceHeading(b, c, l.heading, m);
    PlaceCluesPastLastColumn(b, h.cursor, l.clues, m);
    var f := PlaceClues(b, h.cursor, l.clues, m);
    var ds := PlaceList(b, c, l, m).draws;
    assert ds == h.draws + f.draws;
    forall k | 0 <= k < |l.clues|
      ensures AtOrigin(ds[1 + 2 * k]) && BesideOrigin(ds[2 + 2 * k])
    {
      assert ds[1 + 2 * k] == f.draws[2 * k] && ds[2 + 2 * k] == f.draws[2 * k + 1];
    }
  }

  /** Past the last column every list is drawn at the sentinel, each from
      where the lists before it end, and the column no longer moves. */
  lemma {:induction false} PlaceListsPastLastColumn(b: seq<ColumnBound>, c: Cursor, ls: seq<ClueList>, m: Metrics)
    requires c.col >= |b|
    ensures PlaceLists(b, c, ls, m).cursor.col == c.col
    ensures |PlaceLists(b, c, ls, m).draws| == DrawCount(ls)
    ensures forall j :: 0 <= j < |ls| ==> ListAtSentinel(PlaceLists(b, c, ls, m).draws, DrawCount(ls[..j]), ls[j])
  {
    if ls != [] {
      var init := ls[..|ls| - 1];
      PlaceListsPastLastColumn(b, c, init, m);
      var f := PlaceLists(b, c, init, m);
      var last := ls[|ls| - 1];
      PlaceListPastLastColumn(b, f.cursor, last, m);
      var g := PlaceList(b, f.cursor, last, m);
      var ds := PlaceLists(b, c, ls, m).draws;
      assert ds == f.draws + g.draws;
      forall j | 0 <= j < |ls|
        ensures ListAtSentinel(ds, DrawCount(ls[..j]), ls[j])
      {
        if j < |init| {
          assert ls[..j] == init[..j] && ls[j] == init[j];
          ListAtSentinelExtend(f.draws, g.draws, DrawCount(init[..j]), init[j]);
        } else {
          assert ls[..j] == init;
          ListAtSentinelShift(f.draws, g.draws, last);
        }
      }
    }
  }

  /** Draws appended after a list do not move it. */
  lemma ListAtSentinelExtend(ds: seq<Draw>, more: seq<Draw>, start: int, l: ClueList)
    requires ListAtSentinel(ds, start, l)
    ensures ListAtSentinel(ds + more, start, l)
  {
    var all := ds + more;
    assert all[start] == ds[start];
    forall k | 0 <= k < |l.clues|
      ensures AtOrigin(all[start + 1 + 2 * k]) && BesideOrigin(all[start + 2 + 2 * k])
    {
      assert all[start + 1 + 2 * k] == ds[start + 1 + 2 * k];
      assert all[start + 2 + 2 * k] == ds[start + 2 + 2 * k];
    }
  }

  /** A list drawn after others sits where they end. */
  lemma ListAtSentinelShift(ds: seq<Draw>, more: seq<Draw>, l: ClueList)
    requires ListAtSentinel(more, 0, l)
    ensures ListAtSentinel(ds + more, |ds|, l)
  {
    var all := ds + more;
    var n := |ds|;
    assert all[n] == more[0];
    forall k | 0 <= k < |l.clues|
      ensures AtOrigin(all[n + 1 + 2 * k]) && BesideOrigin(all[n + 2 + 2 * k])
    {
      assert all[n + 1 + 2 * k] == more[1 + 2 * k];
      assert all[n + 2 + 2 * k] == more[2 + 2 * k];
    }
  }

  /** A clue that does not fit in its column is drawn at the top of the
      next column, not at the bottom of the current one. */
  lemma OverflowingClueStartsNextColumn(b: seq<ColumnBound>, c: Cursor, raw: string, m: Metrics)
    requires 0 <= c.col && c.col + 1 < |b|
    requires c.y + m.measure(ParseClue(raw).text, Some(ClueWidth())) > b[c.col].y2
    ensures var f := PlaceClue(b, c, raw, m);
      && f.cursor.col == c.col + 1
      && f.draws[0].x == b[c.col + 1].x
      && f.draws[0].y == b[c.col + 1].y
  {
  }
}
