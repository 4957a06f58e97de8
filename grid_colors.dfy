/**
  The palette of GridRenderer.getColor in gridrenderer.js: the colour a grid
  code is drawn in. The lookup switches on the absolute value of the code, so
  a falling Tetris cell (k > 0) and the same cell once landed (-k) are drawn
  alike.
*/
module GridColors {
  import TetrisGrid

  /** An RGBA colour with components in [0, 1]. */
  datatype Color = Color(r: real, g: real, b: real, a: real)

  const White := Color(1.0, 1.0, 1.0, 1.0)

  /** The colours of codes 1 to 8, in order. This table repeats the literals
      of GetColor on purpose: it is the independent reference that
      GetColorFollowsPalette checks the switch against. */
  const Palette: seq<Color> := [
    Color(1.0, 0.0, 0.0, 1.0),
    Color(0.0, 1.0, 0.0, 1.0),
    Color(0.0, 0.0, 1.0, 1.0),
    Color(0.0, 1.0, 1.0, 1.0),
    Color(1.0, 1.0, 0.0, 1.0),
    Color(1.0, 0.0, 1.0, 1.0),
    Color(0.1, 0.75, 0.5, 1.0),
    Color(0.5, 0.5, 0.5, 1.0)
  ]

  function Abs(k: int): nat {
    if k < 0 then -k else k
  }

  /** getColor: every code yields exactly one opaque colour; white exactly
      for 0 and for codes beyond 8 in absolute value. */
  function GetColor(index: int): (c: Color)
    ensures c.a == 1.0
    ensures (1 <= Abs(index) <= 8) <==> c != White
  {
    match Abs(index)
    case 1 => Color(1.0, 0.0, 0.0, 1.0)
    case 2 => Color(0.0, 1.0, 0.0, 1.0)
    case 3 => Color(0.0, 0.0, 1.0, 1.0)
    case 4 => Color(0.0, 1.0, 1.0, 1.0)
    case 5 => Color(1.0, 1.0, 0.0, 1.0)
    case 6 => Color(1.0, 0.0, 1.0, 1.0)
    case 7 => Color(0.1, 0.75, 0.5, 1.0)
    case 8 => Color(0.5, 0.5, 0.5, 1.0)
    case _ => White
  }

  /** The sign of a code is ignored, the eight codes 1..8 are drawn in the
      eight distinct palette colours, and every other code in white. */
  lemma GetColorFollowsPalette(index: int)
    ensures GetColor(index) == GetColor(-index)
    ensures 1 <= Abs(index) <= 8 ==> GetColor(index) == Palette[Abs(index) - 1]
    ensures !(1 <= Abs(index) <= 8) ==> GetColor(index) == White
  {
  }

  /** No two codes in 1..8 share a colour, and none of them is white. */
  lemma PaletteIsDistinct()
    ensures forall i, j | 0 <= i < j < |Palette| :: Palette[i] != Palette[j]
    ensures forall i | 0 <= i < |Palette| :: Palette[i] != White
  {
  }

  /** Freezing a Tetris piece (k to -k) does not change how any cell is drawn. */
  lemma FreezingKeepsColours(g: TetrisGrid.Grid)
    requires TetrisGrid.IsGrid(g)
    ensures forall r, c | TetrisGrid.PointInGrid(r, c) ::
              GetColor(TetrisGrid.Frozen(g)[r][c]) == GetColor(g[r][c])
  {
    TetrisGrid.FreezeLeavesNoFalling(g);
    forall r, c | TetrisGrid.PointInGrid(r, c)
      ensures GetColor(TetrisGrid.Frozen(g)[r][c]) == GetColor(g[r][c])
    {
      GetColorFollowsPalette(g[r][c]);
    }
  }
}
