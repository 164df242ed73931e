/** The 20 x 10 grid of boxes, the legality test of a translation, and the
    overlay of a piece's colour onto the grid. */
module Grid {
  import opened Catalog

  const WIDTH: nat := 10
  const HEIGHT: nat := 20

  /** The grid as a list of rows; row 0 is the top. */
  type Rows = seq<seq<Box>>

  /** HEIGHT rows of WIDTH boxes each. */
  ghost predicate WellFormed(g: Rows) {
    |g| == HEIGHT && forall r :: 0 <= r < |g| ==> |g[r]| == WIDTH
  }

  predicate InBounds(p: Pos) {
    0 <= p.x < WIDTH && 0 <= p.y < HEIGHT
  }

  predicate AllInBounds(cells: seq<Pos>) {
    forall i :: 0 <= i < |cells| ==> InBounds(cells[i])
  }

  /** A cell inside the grid whose box is empty. */
  predicate Free(g: Rows, p: Pos)
    requires WellFormed(g)
  {
    InBounds(p) && g[p.y][p.x] == Empty
  }

  /** A row of WIDTH empty boxes. */
  function EmptyRow(): (row: seq<Box>)
    ensures |row| == WIDTH
    ensures forall c :: 0 <= c < |row| ==> row[c] == Empty
  {
    seq(WIDTH, _ => Empty)
  }

  /** The grid a new board starts with. */
  function EmptyGrid(): (g: Rows)
    ensures WellFormed(g)
    ensures forall r, c :: 0 <= r < HEIGHT && 0 <= c < WIDTH ==> g[r][c] == Empty
  {
    seq(HEIGHT, _ => EmptyRow())
  }

  /** The cell one step away in the direction of a translation: one row
      down, one column right or one column left. */
  function Shift(p: Pos, m: Movement): (q: Pos)
    requires m != Rotate
    ensures m == Down <==> q == Pos(p.x, p.y + 1)
    ensures m == Right <==> q == Pos(p.x + 1, p.y)
    ensures m == Left <==> q == Pos(p.x - 1, p.y)
  {
    match m
    case Down => Pos(p.x, p.y + 1)
    case Right => Pos(p.x + 1, p.y)
    case Left => Pos(p.x - 1, p.y)
  }

  /** Every cell translated by one step; distinct cells stay distinct. */
  function Translated(cells: seq<Pos>, m: Movement): (r: seq<Pos>)
    requires m != Rotate
    ensures |r| == |cells|
    ensures forall i :: 0 <= i < |r| ==> r[i] == Shift(cells[i], m)
    ensures DistinctCells(cells) ==> DistinctCells(r)
  {
    seq(|cells|, i requires 0 <= i < |cells| => Shift(cells[i], m))
  }

  /** The per-cell test of the legality check, branch by branch: on the
      bottom row or above a filled box (Down), on the last column or left
      of a filled box (Right), on column 0 or right of a filled box (Left).
      A cell is blocked exactly when its target cell is outside the grid or
      filled. */
  function Blocked(g: Rows, p: Pos, m: Movement): (blocked: bool)
    requires WellFormed(g) && InBounds(p) && m != Rotate
    ensures blocked <==> !Free(g, Shift(p, m))
  {
    if m == Down then p.y >= |g| - 1 || g[p.y + 1][p.x] != Empty
    else if m == Right then p.x >= |g[0]| - 1 || g[p.y][p.x + 1] != Empty
    else p.x <= 0 || g[p.y][p.x - 1] != Empty
  }

  /** The legality check of a translation: cells are tested in order and the
      first blocked one makes the answer false. It holds exactly when every
      target cell is inside the grid and empty. */
  function CanMove(g: Rows, cells: seq<Pos>, m: Movement): (ok: bool)
    requires WellFormed(g) && AllInBounds(cells) && m != Rotate
    ensures ok <==> forall i :: 0 <= i < |cells| ==> Free(g, Shift(cells[i], m))
    decreases |cells|
  {
    if |cells| == 0 then true
    else
      assert forall i :: 1 <= i < |cells| ==> cells[i] == cells[1..][i - 1];
      !Blocked(g, cells[0], m) && CanMove(g, cells[1..], m)
  }

  /** A legal translation keeps every cell inside the grid, on empty boxes. */
  lemma {:induction false} TranslationStaysInBounds(g: Rows, cells: seq<Pos>, m: Movement)
    requires WellFormed(g) && AllInBounds(cells) && m != Rotate
    requires CanMove(g, cells, m)
    ensures AllInBounds(Translated(cells, m))
    ensures forall i :: 0 <= i < |cells| ==> Free(g, Translated(cells, m)[i])
  {
  }

  /** Writes the colour into the box of one cell, when the cell is inside
      the grid. */
  function Put(g: Rows, p: Pos, c: Colour): (r: Rows)
    requires WellFormed(g)
    ensures WellFormed(r)
  {
    if InBounds(p) then g[p.y := g[p.y][p.x := Filled(c)]] else g
  }

  /** The grid with the piece's colour written into its in-bounds cells, in
      the order of the cells. */
  function Overlay(g: Rows, cells: seq<Pos>, c: Colour): (r: Rows)
    requires WellFormed(g)
    ensures WellFormed(r)
    decreases |cells|
  {
    if |cells| == 0 then g else Put(Overlay(g, cells[..|cells| - 1], c), cells[|cells| - 1], c)
  }

  /** The overlay colours exactly the in-bounds piece cells and leaves every
      other box as it was. */
  lemma {:induction false} OverlayAt(g: Rows, cells: seq<Pos>, c: Colour, p: Pos)
    requires WellFormed(g) && InBounds(p)
    ensures Overlay(g, cells, c)[p.y][p.x] == if p in cells then Filled(c) else g[p.y][p.x]
    decreases |cells|
  {
    if |cells| > 0 {
      var init := cells[..|cells| - 1];
      OverlayAt(g, init, c, p);
      assert cells == init + [cells[|cells| - 1]];
    }
  }

  /** The overlay at every in-bounds cell at once. */
  lemma OverlayEverywhere(g: Rows, cells: seq<Pos>, c: Colour)
    requires WellFormed(g)
    ensures forall p :: InBounds(p) ==>
      Overlay(g, cells, c)[p.y][p.x] == if p in cells then Filled(c) else g[p.y][p.x]
  {
    forall p | InBounds(p)
      ensures Overlay(g, cells, c)[p.y][p.x] == if p in cells then Filled(c) else g[p.y][p.x]
    {
      OverlayAt(g, cells, c, p);
    }
  }
}
