/** The drawing context the calendar paints on, reduced to the trace of
    draw commands it receives: a current colour, and text, filled
    rectangles and stroked lines drawn in that colour. */
module Canvas {
  /** The three colours the calendar uses. */
  datatype Color = Black | Red | White

  const TextColor := Black
  const HolidayColor := Red
  const BackgroundColor := White

  /** The RGBA value of a colour. */
  function Rgba(c: Color): (v: (int, int, int, int))
    ensures v.3 == 255
    ensures c == White <==> v.0 == 255 && v.2 == 255
    ensures c == Red <==> v.0 == 255 && v.1 == 0 && v.2 == 0
  {
    match c
    case Black => (0, 0, 0, 255)
    case Red => (255, 0, 0, 255)
    case White => (255, 255, 255, 255)
  }

  /** The palette of the GIF output: black, red, white, in that order. */
  const Palette: seq<Color> := [TextColor, HolidayColor, BackgroundColor]

  /** The palette holds each colour once, so every colour has its own
      index. */
  lemma PaletteIndices()
    ensures |Palette| == 3
    ensures forall i, j :: 0 <= i < j < |Palette| ==> Palette[i] != Palette[j]
    ensures forall c: Color :: c in Palette
  {
    forall c: Color
      ensures c in Palette
    {
      var i := match c case Black => 0 case Red => 1 case White => 2;
      assert Palette[i] == c;
    }
  }

  /** One call into the drawing context, with the colour it used. */
  datatype Command =
    | Text(s: string, x: int, y: int, color: Color)
    | Rect(x: int, y: int, w: int, h: int, color: Color)
    | Line(x1: int, y1: int, x2: int, y2: int, color: Color)

  /** The drawing context: the colour set last and every command so far. */
  class Context {
    const width: int
    const height: int
    var color: Color
    var commands: seq<Command>

    /** gg.NewContext: an empty picture of the given size. */
    constructor (width: int, height: int)
      ensures this.width == width && this.height == height
      ensures color == Black && commands == []
    {
      this.width := width;
      this.height := height;
      color := Black;
      commands := [];
    }

    /** SetColor: later drawing uses c. */
    method SetColor(c: Color)
      modifies this
      ensures color == c && commands == old(commands)
    {
      color := c;
    }

    /** DrawString at (x, y) in the current colour. */
    method DrawString(s: string, x: int, y: int)
      modifies this
      ensures color == old(color)
      ensures commands == old(commands) + [Text(s, x, y, old(color))]
    {
      commands := commands + [Text(s, x, y, color)];
    }

    /** DrawRectangle followed by Fill, in the current colour. */
    method FillRectangle(x: int, y: int, w: int, h: int)
      modifies this
      ensures color == old(color)
      ensures commands == old(commands) + [Rect(x, y, w, h, old(color))]
    {
      commands := commands + [Rect(x, y, w, h, color)];
    }

    /** DrawLine followed by Stroke, in the current colour. */
    method StrokeLine(x1: int, y1: int, x2: int, y2: int)
      modifies this
      ensures color == old(color)
      ensures commands == old(commands) + [Line(x1, y1, x2, y2, old(color))]
    {
      commands := commands + [Line(x1, y1, x2, y2, color)];
    }
  }

  /** Regrouping appended command lists. */
  lemma AppendAssoc(a: seq<Command>, b: seq<Command>, c: seq<Command>)
    ensures a + b + c == a + (b + c)
  {
  }
}
