/** Plain data of the game: movements, colours, cells, the seven spawn shapes
    and the table from key names to movements. */
module Catalog {

  datatype Option<T> = None | Some(value: T)

  /** The four actions the board accepts. */
  datatype Movement = Down | Right | Left | Rotate

  /** The six colour tags a piece can carry. */
  datatype Colour = Blue | Red | Purple | Green | Orange | Yellow

  /** The palette, in the order the random index selects from. */
  const COLOURS: seq<Colour> := [Blue, Red, Purple, Green, Orange, Yellow]

  /** One grid entry: the empty tag or a colour tag. */
  datatype Box = Empty | Filled(colour: Colour)

  /** A cell as (column, row); row 0 is the top of the grid. */
  datatype Pos = Pos(x: int, y: int)

  /** No cell occurs twice. */
  predicate DistinctCells(cells: seq<Pos>) {
    forall i, j :: 0 <= i < j < |cells| ==> cells[i] != cells[j]
  }

  /** The seven piece variants. */
  datatype Shape = JBlock | IBlock | LBlock | SquareBlock | TBlock | ZBlock | SBlock

  /** The variants, in the order the random index selects from. */
  const SHAPES: seq<Shape> := [JBlock, IBlock, LBlock, SquareBlock, TBlock, ZBlock, SBlock]

  /** The absolute cells a variant occupies when it spawns: four different
      cells in columns 0..3 and rows 0..1, the third of them on row 1. */
  function SpawnPosition(s: Shape): (cells: seq<Pos>)
    ensures |cells| == 4
    ensures forall i :: 0 <= i < |cells| ==> 0 <= cells[i].x <= 3 && 0 <= cells[i].y <= 1
    ensures DistinctCells(cells)
    ensures cells[2].y == 1
  {
    match s
    case JBlock => [Pos(0, 0), Pos(0, 1), Pos(1, 1), Pos(2, 1)]
    case IBlock => [Pos(0, 1), Pos(1, 1), Pos(2, 1), Pos(3, 1)]
    case LBlock => [Pos(2, 0), Pos(2, 1), Pos(1, 1), Pos(0, 1)]
    case SquareBlock => [Pos(1, 0), Pos(2, 0), Pos(1, 1), Pos(2, 1)]
    case TBlock => [Pos(1, 0), Pos(0, 1), Pos(1, 1), Pos(2, 1)]
    case ZBlock => [Pos(0, 0), Pos(1, 0), Pos(1, 1), Pos(2, 1)]
    case SBlock => [Pos(2, 0), Pos(1, 0), Pos(1, 1), Pos(0, 1)]
  }

  /** Every colour of the datatype is one of the six palette entries, and
      the palette lists each of them once. */
  lemma {:induction false} PaletteIsComplete(c: Colour)
    ensures |COLOURS| == 6
    ensures exists i :: 0 <= i < |COLOURS| && COLOURS[i] == c
    ensures forall i, j :: 0 <= i < j < |COLOURS| ==> COLOURS[i] != COLOURS[j]
  {
    match c
    case Blue => assert COLOURS[0] == c;
    case Red => assert COLOURS[1] == c;
    case Purple => assert COLOURS[2] == c;
    case Green => assert COLOURS[3] == c;
    case Orange => assert COLOURS[4] == c;
    case Yellow => assert COLOURS[5] == c;
  }

  /** The key names the input reader recognises. */
  const KEY_MAPPING: map<string, Movement> := map[
    "flecha abajo" := Down,
    "down" := Down,
    "s" := Down,
    "flecha derecha" := Right,
    "right" := Right,
    "d" := Right,
    "flecha izquierda" := Left,
    "left" := Left,
    "a" := Left,
    "space" := Rotate
  ]

  /** The movement a key press issues, if any. */
  function MovementOfKey(key: string): (m: Option<Movement>)
    ensures m == Some(Down) <==> key == "flecha abajo" || key == "down" || key == "s"
    ensures m == Some(Right) <==> key == "flecha derecha" || key == "right" || key == "d"
    ensures m == Some(Left) <==> key == "flecha izquierda" || key == "left" || key == "a"
    ensures m == Some(Rotate) <==> key == "space"
    ensures m == None <==> key !in {"flecha abajo", "down", "s", "flecha derecha", "right", "d",
                                     "flecha izquierda", "left", "a", "space"}
  {
    if key in KEY_MAPPING then Some(KEY_MAPPING[key]) else None
  }
}
