/** The drawing surface a node paints on, seen through what is asked of it:
    its current fill style and the commands issued so far. */
module Surface {
  import P = Painting

  class Canvas {
    var fillStyle: string
    var log: seq<P.Cmd>

    constructor (style: string)
      ensures fillStyle == style && log == []
    {
      fillStyle := style;
      log := [];
    }

    method SetFillStyle(style: string)
      modifies this
      ensures fillStyle == style && log == old(log) + [P.SetFill(style)]
    {
      fillStyle := style;
      log := log + [P.SetFill(style)];
    }

    method FillRect(x: int, y: int, w: int, h: int)
      modifies this
      ensures fillStyle == old(fillStyle) && log == old(log) + [P.FillRect(x, y, w, h)]
    {
      log := log + [P.FillRect(x, y, w, h)];
    }

    method StrokeRect(x: int, y: int, w: int, h: int)
      modifies this
      ensures fillStyle == old(fillStyle) && log == old(log) + [P.StrokeRect(x, y, w, h)]
    {
      log := log + [P.StrokeRect(x, y, w, h)];
    }

    method BeginPath()
      modifies this
      ensures fillStyle == old(fillStyle) && log == old(log) + [P.BeginPath]
    {
      log := log + [P.BeginPath];
    }

    method MoveTo(x: int, y: int)
      modifies this
      ensures fillStyle == old(fillStyle) && log == old(log) + [P.MoveTo(x, y)]
    {
      log := log + [P.MoveTo(x, y)];
    }

    method LineTo(x: int, y: int)
      modifies this
      ensures fillStyle == old(fillStyle) && log == old(log) + [P.LineTo(x, y)]
    {
      log := log + [P.LineTo(x, y)];
    }

    method Stroke()
      modifies this
      ensures fillStyle == old(fillStyle) && log == old(log) + [P.Stroke]
    {
      log := log + [P.Stroke];
    }

    /** A child's own display call onto this surface; what the child paints
        is its own business and is recorded as the call. */
    method Show(index: nat, x: int, y: int)
      modifies this
      ensures fillStyle == old(fillStyle) && log == old(log) + [P.Show(index, x, y)]
    {
      log := log + [P.Show(index, x, y)];
    }
  }
}
