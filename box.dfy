/** The Box draw spec: fills its component's rectangle with the component's
    style and, unless its border style is none, frames it with line-drawing
    glyphs. */
module Box {
  import opened Base
  import opened Surface

  datatype BorderStyle = NoBorder | Single | Thick | Rounded | Double

  /** The six glyphs of one border style. */
  datatype BorderElements = BorderElements(
    horizontal: string,
    vertical: string,
    topLeft: string,
    topRight: string,
    bottomLeft: string,
    bottomRight: string)

  /** The glyph table; `NoBorder` has no entry. */
  const borders: map<BorderStyle, BorderElements> := map[
    Single := BorderElements("─", "│", "┌", "┐", "└", "┘"),
    Rounded := BorderElements("─", "│", "╭", "╮", "╰", "╯"),
    Thick := BorderElements("━", "┃", "┏", "┓", "┗", "┛"),
    Double := BorderElements("═", "║", "╔", "╗", "╚", "╝")
  ]

  lemma {:induction false} BordersCoverStyles(border: BorderStyle)
    ensures border != NoBorder ==> border in borders
  {
    match border
    case NoBorder =>
    case Single =>
    case Rounded =>
    case Thick =>
    case Double =>
  }

  predicate OnCorner(x: int, y: int, width: int, height: int)
  {
    (x == 0 || x == width - 1) && (y == 0 || y == height - 1)
  }

  predicate OnFrame(x: int, y: int, width: int, height: int)
  {
    x == 0 || x == width - 1 || y == 0 || y == height - 1
  }

  /** The glyph `Draw` leaves at offset (x, y) of a width-by-height box: the
      space written first, replaced by the first border rule that matches. */
  function GlyphAt(border: BorderStyle, x: int, y: int, width: int, height: int): string
  {
    if border == NoBorder then " "
    else
      BordersCoverStyles(border);
      var e := borders[border];
      if x == 0 && y == 0 then e.topLeft
      else if x == 0 && y == height - 1 then e.bottomLeft
      else if x == width - 1 && y == 0 then e.topRight
      else if x == width - 1 && y == height - 1 then e.bottomRight
      else if y == 0 || y == height - 1 then e.horizontal
      else if x == 0 || x == width - 1 then e.vertical
      else " "
  }

  /** With no border the whole rectangle is blank. */
  lemma {:induction false} NoBorderIsBlank(x: int, y: int, width: int, height: int)
    ensures GlyphAt(NoBorder, x, y, width, height) == " "
  {
  }

  /** Exactly the frame cells carry a border glyph; the interior stays blank. */
  lemma {:induction false} FrameIsDrawn(border: BorderStyle, x: int, y: int, width: int, height: int)
    requires border != NoBorder
    requires 0 <= x < width && 0 <= y < height
    ensures GlyphAt(border, x, y, width, height) != " " <==> OnFrame(x, y, width, height)
  {
  }

  /** The four corners get the four corner glyphs; when the box is one cell
      wide or high, the rule tested first (top-left, then bottom-left, then
      top-right) wins. */
  lemma {:induction false} CornerGlyphs(border: BorderStyle, width: int, height: int)
    requires border != NoBorder && width >= 1 && height >= 1
    ensures var e := borders[border];
      && GlyphAt(border, 0, 0, width, height) == e.topLeft
      && GlyphAt(border, 0, height - 1, width, height)
         == (if height == 1 then e.topLeft else e.bottomLeft)
      && GlyphAt(border, width - 1, 0, width, height)
         == (if width == 1 then e.topLeft else e.topRight)
      && GlyphAt(border, width - 1, height - 1, width, height)
         == (if width == 1 && height == 1 then e.topLeft
             else if width == 1 then e.bottomLeft
             else if height == 1 then e.topRight
             else e.bottomRight)
  {
  }

  /** Non-corner cells of the top and bottom rows are horizontal runs, other
      cells of the left and right columns are vertical runs. */
  lemma {:induction false} EdgeGlyphs(border: BorderStyle, x: int, y: int, width: int, height: int)
    requires border != NoBorder
    requires 0 <= x < width && 0 <= y < height && !OnCorner(x, y, width, height)
    ensures (y == 0 || y == height - 1) ==> GlyphAt(border, x, y, width, height) == borders[border].horizontal
    ensures (0 < y < height - 1 && (x == 0 || x == width - 1)) ==>
              GlyphAt(border, x, y, width, height) == borders[border].vertical
  {
  }

  /** The single and rounded styles draw the same box except at its corners. */
  lemma {:induction false} SingleAndRoundedDifferAtCorners(x: int, y: int, width: int, height: int)
    requires 0 <= x < width && 0 <= y < height
    ensures (GlyphAt(Single, x, y, width, height) != GlyphAt(Rounded, x, y, width, height))
            == OnCorner(x, y, width, height)
  {
  }

  /** `cells` is `before` with the rectangle of `width` by `height` cells at
      (`left`, `top`) showing the box: every cell its border glyph, or a
      blank, in `style`; nothing outside the rectangle changed. */
  ghost predicate Boxed(cells: map<(int, int), Cell>, before: map<(int, int), Cell>,
                        left: int, top: int, width: int, height: int, border: BorderStyle, style: Style)
  {
    && (forall p :: InRect(p, left, top, width, height) ==>
          p in cells && cells[p] == Cell(GlyphAt(border, p.0 - left, p.1 - top, width, height), style))
    && Confined(cells, before, left, top, width, height)
  }

  class Box {
    var padding: int
    var border: BorderStyle

    /** The box that `NewBox` attaches to a new component. */
    constructor ()
      ensures padding == 0 && border == NoBorder
    {
      padding := 0;
      border := NoBorder;
    }

    function Border(): BorderStyle
      reads this
    {
      border
    }

    method SetBorder(border: BorderStyle)
      modifies this
      ensures Border() == border && padding == old(padding)
    {
      this.border := border;
    }

    /** Paints the component's rectangle: its columns left to right, each
        column top to bottom, every cell first blank and then, unless the
        border style is none, overwritten by its border glyph. */
    method Draw(screen: Screen, left: int, top: int, width: int, height: int, style: Style)
      modifies screen
      ensures screen.width == old(screen.width) && screen.height == old(screen.height)
      ensures Boxed(screen.cells, old(screen.cells), left, top, width, height, border, style)
    {
      var x := 0;
      while x < width
        invariant 0 <= x && (x <= width || x == 0)
        invariant screen.width == old(screen.width) && screen.height == old(screen.height)
        invariant forall p :: InRect(p, left, top, x, height) ==>
                    p in screen.cells && screen.cells[p] == Cell(GlyphAt(border, p.0 - left, p.1 - top, width, height), style)
        invariant forall p :: p in old(screen.cells) && !InRect(p, left, top, x, height) ==>
                    p in screen.cells && screen.cells[p] == old(screen.cells)[p]
        invariant forall p :: p in screen.cells ==> p in old(screen.cells) || InRect(p, left, top, x, height)
      {
        DrawColumn(screen, left, top, x, width, height, style);
        x := x + 1;
      }
    }

    /** The inner loop of `Draw`: column `x` of the rectangle, top to bottom. */
    method DrawColumn(screen: Screen, left: int, top: int, x: int, width: int, height: int, style: Style)
      modifies screen
      ensures screen.width == old(screen.width) && screen.height == old(screen.height)
      ensures forall p :: InRect(p, left + x, top, 1, height) ==>
                p in screen.cells && screen.cells[p] == Cell(GlyphAt(border, x, p.1 - top, width, height), style)
      ensures forall p :: p in old(screen.cells) && !InRect(p, left + x, top, 1, height) ==>
                p in screen.cells && screen.cells[p] == old(screen.cells)[p]
      ensures forall p :: p in screen.cells ==> p in old(screen.cells) || InRect(p, left + x, top, 1, height)
    {
      var y := 0;
      while y < height
        invariant 0 <= y && (y <= height || y == 0)
        invariant screen.width == old(screen.width) && screen.height == old(screen.height)
        invariant forall p :: InRect(p, left + x, top, 1, y) ==>
                    p in screen.cells && screen.cells[p] == Cell(GlyphAt(border, x, p.1 - top, width, height), style)
        invariant forall p :: p in old(screen.cells) && !InRect(p, left + x, top, 1, y) ==>
                    p in screen.cells && screen.cells[p] == old(screen.cells)[p]
        invariant forall p :: p in screen.cells ==> p in old(screen.cells) || InRect(p, left + x, top, 1, y)
      {
        DrawCell(screen, left, top, x, y, width, height, style);
        y := y + 1;
      }
    }

    /** The body of the inner loop: one cell, blank first, then its glyph. */
    method DrawCell(screen: Screen, left: int, top: int, x: int, y: int, width: int, height: int, style: Style)
      modifies screen
      ensures screen.width == old(screen.width) && screen.height == old(screen.height)
      ensures screen.cells == old(screen.cells)[(left + x, top + y) := Cell(GlyphAt(border, x, y, width, height), style)]
    {
      screen.Put(left + x, top + y, " ", style);
      if border != NoBorder {
        BordersCoverStyles(border);
        var e := borders[border];
        if x == 0 && y == 0 {
          screen.Put(left + x, top + y, e.topLeft, style);
        } else if x == 0 && y == height - 1 {
          screen.Put(left + x, top + y, e.bottomLeft, style);
        } else if x == width - 1 && y == 0 {
          screen.Put(left + x, top + y, e.topRight, style);
        } else if x == width - 1 && y == height - 1 {
          screen.Put(left + x, top + y, e.bottomRight, style);
        } else if y == 0 || y == height - 1 {
          screen.Put(left + x, top + y, e.horizontal, style);
        } else if x == 0 || x == width - 1 {
          screen.Put(left + x, top + y, e.vertical, style);
        }
      }
    }
  }
}
