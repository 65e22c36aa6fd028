/** The drawing surface the layout writes onto, kept abstract.

    The page is represented by the sequence of drawing commands issued to it,
    in issue order. Text metrics (how tall a string is, where the library's
    vertical cursor ends up after drawing) come from the library and are
    parameters of the model. */
module Surface {

  datatype Option<+T> = None | Some(value: T)

  /** The text styles the page uses; each fixes a font, a size and gaps. */
  datatype Style = SectionTitle | ClueNumber | ClueBody

  /** One drawing command. */
  datatype Draw =
    /** `str` written with its top-left corner at (x, y), wrapped at `width` when given. */
    | Text(str: string, x: real, y: real, style: Style, width: Option<real>)
    /** A grid cell's square border, filled black when `filled`. */
    | Square(x: real, y: real, side: real, filled: bool)
    /** A stroked circle. */
    | Ring(cx: real, cy: real, radius: real)
    /** A white square patch (the background of a cell number). */
    | Patch(x: real, y: real, side: real)
    /** A cell number, written in the grid-number style (its own variant, as
        the number is not a string until the library formats it). */
    | Numeral(n: int, x: real, y: real)

  /** What the drawing library reports about text.
      `measure(str, width)` is the height `str` takes when wrapped at `width`
      (None: no width option). `advance(d)` is the library's vertical cursor
      after it draws the text command `d`. `lineHeight` is what one
      "move down one line" adds to that cursor. */
  datatype Metrics = Metrics(
    measure: (string, Option<real>) -> real,
    advance: Draw -> real,
    lineHeight: real)
}
