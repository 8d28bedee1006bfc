/** The terminal screen the toolkit paints on (a tcell screen). Only the part
    the core uses is modelled: its size and the cells that `Put` overwrites. */
module Surface {
  import opened Base

  /** What one screen cell shows: a glyph (a one-cell string) and its style. */
  datatype Cell = Cell(glyph: string, style: Style)

  /** Cell `p` lies in the rectangle with top-left cell (left, top). */
  predicate InRect(p: (int, int), left: int, top: int, width: int, height: int)
  {
    left <= p.0 < left + width && top <= p.1 < top + height
  }

  /** `cells` is `before` changed only inside the rectangle: nothing outside
      it was overwritten or added. */
  ghost predicate Confined(cells: map<(int, int), Cell>, before: map<(int, int), Cell>,
                           left: int, top: int, width: int, height: int)
  {
    && (forall p :: p in before && !InRect(p, left, top, width, height) ==> p in cells && cells[p] == before[p])
    && (forall p :: p in cells ==> p in before || InRect(p, left, top, width, height))
  }

  class Screen {
    var cells: map<(int, int), Cell>
    var width: int
    var height: int

    constructor (width: int, height: int)
      ensures cells == map[] && this.width == width && this.height == height
    {
      cells := map[];
      this.width := width;
      this.height := height;
    }

    /** Writes one styled glyph at column `x`, row `y`, replacing what was there;
        a cell outside the screen is recorded like any other. */
    method Put(x: int, y: int, glyph: string, style: Style)
      modifies this
      ensures cells == old(cells)[(x, y) := Cell(glyph, style)]
      ensures width == old(width) && height == old(height)
    {
      cells := cells[(x, y) := Cell(glyph, style)];
    }
  }
}
