/** Rotation of a piece's cells about the grid origin (0, 0). The program
    computes each new coordinate as a floating-point sum
    x * cos - y * sin (or x * sin + y * cos) for the angle rotation_state * 90
    degrees and rounds it; for these angles the sine and cosine are within
    rounding error of 0 and +-1, so each sum lies within a tiny fraction of the
    exact integer below and rounds to it, and the integer table gives the same
    cells. */
module Rotation {
  import opened Catalog
  import opened Grid

  /** One quarter turn about the origin, in the orientation of the program's
      matrix [[cos, -sin], [sin, cos]] at 90 degrees. */
  function QuarterTurn(p: Pos): (q: Pos)
  {
    Pos(-p.y, p.x)
  }

  /** n successive quarter turns: the reference definition of a rotation by
      n * 90 degrees. */
  function Turns(p: Pos, n: nat): (q: Pos)
    decreases n
  {
    if n == 0 then p else QuarterTurn(Turns(p, n - 1))
  }

  /** The cell (x, y) rotated by state * 90 degrees about the origin. */
  function RotatePos(p: Pos, state: int): (q: Pos)
    requires 0 <= state < 4
    ensures q == Turns(p, state)
    ensures q.x * q.x + q.y * q.y == p.x * p.x + p.y * p.y
  {
    if state == 0 then p
    else if state == 1 then Pos(-p.y, p.x)
    else if state == 2 then Pos(-p.x, -p.y)
    else Pos(p.y, -p.x)
  }

  /** The fresh list of cells the rotation builds, one per current cell. */
  function RotateShape(cells: seq<Pos>, state: int): (r: seq<Pos>)
    requires 0 <= state < 4
    ensures |r| == |cells|
    ensures forall i :: 0 <= i < |r| ==> r[i] == Turns(cells[i], state)
  {
    seq(|cells|, i requires 0 <= i < |cells| => RotatePos(cells[i], state))
  }

  /** Quarter turns compose by adding their counts. */
  lemma {:induction false} TurnsAdd(p: Pos, a: nat, b: nat)
    ensures Turns(Turns(p, a), b) == Turns(p, a + b)
    decreases b
  {
    if b > 0 {
      TurnsAdd(p, a, b - 1);
    }
  }

  /** Four quarter turns are the identity. */
  lemma FullTurn(p: Pos)
    ensures Turns(p, 4) == p
  {
    assert Turns(p, 2) == Pos(-p.x, -p.y);
  }

  /** Only the count modulo 4 matters. */
  lemma {:induction false} TurnsModFour(p: Pos, n: nat)
    ensures Turns(p, n) == Turns(p, n % 4)
    decreases n
  {
    if n < 4 {
      assert n % 4 == n;
    } else {
      FullTurn(p);
      TurnsAdd(p, 4, n - 4);
      assert Turns(p, n) == Turns(p, n - 4);
      TurnsModFour(p, n - 4);
      assert (n - 4) % 4 == n % 4;
    }
  }

  /** Rotating the cells by a and then by b is one rotation by a + b. */
  lemma {:induction false} RotateShapeCompose(cells: seq<Pos>, a: int, b: int)
    requires 0 <= a < 4 && 0 <= b < 4
    ensures RotateShape(RotateShape(cells, a), b) == RotateShape(cells, (a + b) % 4)
  {
    var lhs, rhs := RotateShape(RotateShape(cells, a), b), RotateShape(cells, (a + b) % 4);
    forall i | 0 <= i < |cells|
      ensures lhs[i] == rhs[i]
    {
      TurnsAdd(cells[i], a, b);
      TurnsModFour(cells[i], a + b);
    }
  }

  /** Distinct cells stay distinct under a rotation. */
  lemma {:induction false} RotateShapeInjective(cells: seq<Pos>, state: int)
    requires 0 <= state < 4
    requires DistinctCells(cells)
    ensures DistinctCells(RotateShape(cells, state))
  {
    var r := RotateShape(cells, state);
    forall i, j | 0 <= i < j < |cells|
      ensures r[i] != r[j]
    {
      assert r[i] == RotatePos(cells[i], state) && r[j] == RotatePos(cells[j], state);
    }
  }

  /** The first press turns (x, y) into (-y, x): a cell below the top row
      lands in a negative column, outside the grid. */
  lemma FirstRotateLeavesGrid(cells: seq<Pos>, i: nat)
    requires i < |cells| && cells[i].y > 0
    ensures !AllInBounds(RotateShape(cells, 1))
  {
    assert RotateShape(cells, 1)[i] == RotatePos(cells[i], 1);
  }

  /** Every spawned piece has a cell on row 1, so rotating it once from its
      spawn cells always takes it off the grid. */
  lemma SpawnRotateLeavesGrid(s: Shape)
    ensures !AllInBounds(RotateShape(SpawnPosition(s), 1))
  {
    FirstRotateLeavesGrid(SpawnPosition(s), 2);
  }

  /** As written, each press sets the state to (state + 1) % 4 and rotates the
      already rotated cells by the new absolute angle: from state 0, four
      presses turn the piece by 1 + 2 + 3 + 0 quarter turns, a half turn, and
      not back to where it started. */
  lemma {:induction false} FourPressesAsWritten(cells: seq<Pos>)
    ensures RotateShape(RotateShape(RotateShape(RotateShape(cells, 1), 2), 3), 0)
         == RotateShape(cells, 2)
  {
    RotateShapeCompose(cells, 1, 2);
    RotateShapeCompose(cells, 3, 3);
    RotateShapeCompose(cells, 2, 0);
  }

  /** The spawned J block shows it: the half turn that four presses amount
      to moves its second cell from (0, 1) to (0, -1), so the piece does not
      come back to its spawn cells. */
  lemma JBlockHalfTurn()
    ensures RotateShape(SpawnPosition(JBlock), 2)[1] == Pos(0, -1)
    ensures RotateShape(SpawnPosition(JBlock), 2) != SpawnPosition(JBlock)
  {
    var j := SpawnPosition(JBlock);
    assert RotateShape(j, 2)[1] == RotatePos(j[1], 2);
  }

  /** Intended rotation step: one further quarter turn per press. */
  function QuarterTurnShape(cells: seq<Pos>): (r: seq<Pos>)
    ensures |r| == |cells|
    ensures forall i :: 0 <= i < |r| ==> r[i] == Turns(cells[i], 1)
  {
    RotateShape(cells, 1)
  }

  /** With the intended step, four presses restore the piece. */
  lemma {:induction false} FourQuarterTurnsRestore(cells: seq<Pos>)
    ensures QuarterTurnShape(QuarterTurnShape(QuarterTurnShape(QuarterTurnShape(cells)))) == cells
  {
    var r := QuarterTurnShape(QuarterTurnShape(QuarterTurnShape(QuarterTurnShape(cells))));
    forall i | 0 <= i < |cells|
      ensures r[i] == cells[i]
    {
      var p := cells[i];
      TurnsAdd(p, 1, 1);
      TurnsAdd(p, 2, 1);
      TurnsAdd(p, 3, 1);
      TurnsModFour(p, 4);
    }
  }
}
