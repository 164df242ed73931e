/** The live piece and the board that owns it: the step-by-step state
    machine that moves, rotates and locks the piece and clears full rows. */
module Game {
  import opened Catalog
  import opened Grid
  import opened Rotation
  import opened RowClear

  /** The falling piece: its colour, its current absolute cells and how many
      quarter turns (mod 4) it has been rotated. */
  class Piece {
    var colour: Colour
    var cells: seq<Pos>
    var rotationState: int

    ghost predicate Valid()
      reads this
    {
      |cells| == 4 && DistinctCells(cells) && 0 <= rotationState < 4
    }

    /** A new piece of the chosen variant and palette colour, unrotated. */
    constructor (shapeIndex: nat, colourIndex: nat)
      requires shapeIndex < |SHAPES| && colourIndex < |COLOURS|
      ensures Valid()
      ensures colour == COLOURS[colourIndex]
      ensures cells == SpawnPosition(SHAPES[shapeIndex])
      ensures rotationState == 0
    {
      colour := COLOURS[colourIndex];
      cells := SpawnPosition(SHAPES[shapeIndex]);
      rotationState := 0;
    }

    /** Replaces the whole piece state by a new variant and colour. */
    method ChangePiece(shapeIndex: nat, colourIndex: nat)
      requires shapeIndex < |SHAPES| && colourIndex < |COLOURS|
      modifies this
      ensures Valid()
      ensures colour == COLOURS[colourIndex]
      ensures cells == SpawnPosition(SHAPES[shapeIndex])
      ensures rotationState == 0
    {
      colour := COLOURS[colourIndex];
      cells := SpawnPosition(SHAPES[shapeIndex]);
      rotationState := 0;
    }

    /** Moves every cell one step, in place, cell by cell. */
    method Translate(m: Movement)
      requires m != Rotate
      modifies this
      ensures cells == Translated(old(cells), m)
      ensures colour == old(colour) && rotationState == old(rotationState)
    {
      var i := 0;
      while i < |cells|
        invariant 0 <= i <= |cells| == |old(cells)|
        invariant forall j :: 0 <= j < i ==> cells[j] == Shift(old(cells)[j], m)
        invariant forall j :: i <= j < |cells| ==> cells[j] == old(cells)[j]
        invariant colour == old(colour) && rotationState == old(rotationState)
      {
        cells := cells[i := Shift(cells[i], m)];
        i := i + 1;
      }
    }
  }

  /** The grid of boxes and the one live piece. */
  class Board {
    var boxes: Rows
    const piece: Piece

    ghost predicate Valid()
      reads this, piece
    {
      WellFormed(boxes) && piece.Valid()
    }

    /** An empty grid and a first piece of the chosen variant and colour. */
    constructor (shapeIndex: nat, colourIndex: nat)
      requires shapeIndex < |SHAPES| && colourIndex < |COLOURS|
      ensures Valid() && fresh(piece)
      ensures boxes == EmptyGrid()
      ensures piece.colour == COLOURS[colourIndex]
      ensures piece.cells == SpawnPosition(SHAPES[shapeIndex])
      ensures piece.rotationState == 0
      ensures AllInBounds(piece.cells)
    {
      boxes := EmptyGrid();
      piece := new Piece(shapeIndex, colourIndex);
    }

    /** The grid as displayed: the live piece's colour over its in-bounds
        cells, every other box as stored; the stored grid is not changed. */
    function Display(): (shown: Rows)
      requires Valid()
      reads this, piece
      ensures WellFormed(shown)
      ensures forall p :: InBounds(p) ==>
        shown[p.y][p.x] == if p in piece.cells then Filled(piece.colour) else boxes[p.y][p.x]
    {
      OverlayEverywhere(boxes, piece.cells, piece.colour);
      Overlay(boxes, piece.cells, piece.colour)
    }

    /** Applies one movement. A translation commits only when legal and is
        then followed by a row clear; a blocked Down locks the piece and
        spawns the chosen next one; a blocked Left or Right does nothing;
        Rotate always commits. The indices choose the next piece in case of
        a lock. */
    method MovePiece(m: Movement, shapeIndex: nat, colourIndex: nat)
      requires Valid()
      requires shapeIndex < |SHAPES| && colourIndex < |COLOURS|
      requires m != Rotate ==> AllInBounds(piece.cells)
      modifies this, piece
      ensures Valid()
      ensures m == Rotate ==>
        && piece.rotationState == (old(piece.rotationState) + 1) % 4
        && piece.cells == RotateShape(old(piece.cells), piece.rotationState)
        && piece.colour == old(piece.colour)
        && boxes == old(boxes)
      ensures m != Rotate && CanMove(old(boxes), old(piece.cells), m) ==>
        && piece.cells == Translated(old(piece.cells), m)
        && boxes == ClearRows(old(boxes))
        && piece.colour == old(piece.colour)
        && piece.rotationState == old(piece.rotationState)
      ensures m == Down && !CanMove(old(boxes), old(piece.cells), m) ==>
        && boxes == Overlay(old(boxes), old(piece.cells), old(piece.colour))
        && piece.colour == COLOURS[colourIndex]
        && piece.cells == SpawnPosition(SHAPES[shapeIndex])
        && piece.rotationState == 0
      ensures (m == Left || m == Right) && !CanMove(old(boxes), old(piece.cells), m) ==>
        && boxes == old(boxes)
        && piece.cells == old(piece.cells)
        && piece.colour == old(piece.colour)
        && piece.rotationState == old(piece.rotationState)
      ensures m != Rotate ==> AllInBounds(piece.cells)
    {
      if m == Rotate {
        piece.rotationState := (piece.rotationState + 1) % 4;
        RotateShapeInjective(piece.cells, piece.rotationState);
        piece.cells := RotateShape(piece.cells, piece.rotationState);
      } else if CanMove(boxes, piece.cells, m) {
        TranslationStaysInBounds(boxes, piece.cells, m);
        piece.Translate(m);
        FullRowControl();
      } else if m == Down {
        UpdateBoard(shapeIndex, colourIndex);
      }
    }

    /** Locks the piece: writes its colour into each of its cells that lies
        inside the grid, then spawns the chosen next piece. */
    method UpdateBoard(shapeIndex: nat, colourIndex: nat)
      requires Valid()
      requires shapeIndex < |SHAPES| && colourIndex < |COLOURS|
      modifies this, piece
      ensures Valid()
      ensures boxes == Overlay(old(boxes), old(piece.cells), old(piece.colour))
      ensures piece.colour == COLOURS[colourIndex]
      ensures piece.cells == SpawnPosition(SHAPES[shapeIndex])
      ensures piece.rotationState == 0
    {
      var i := 0;
      while i < |piece.cells|
        invariant 0 <= i <= |piece.cells|
        invariant WellFormed(boxes)
        invariant boxes == Overlay(old(boxes), piece.cells[..i], piece.colour)
        invariant piece.cells == old(piece.cells) && piece.colour == old(piece.colour)
        invariant piece.rotationState == old(piece.rotationState)
      {
        var p := piece.cells[i];
        assert piece.cells[..i + 1][..i] == piece.cells[..i];
        if 0 <= p.y < |boxes| && 0 <= p.x < |boxes[0]| {
          boxes := boxes[p.y := boxes[p.y][p.x := Filled(piece.colour)]];
        }
        i := i + 1;
      }
      assert piece.cells[..|piece.cells|] == piece.cells;
      piece.ChangePiece(shapeIndex, colourIndex);
    }

    /** Finds the full rows in one scan, then for each of them from the
        largest index down deletes the row at that index and inserts an empty
        row at the top. */
    method FullRowControl()
      requires WellFormed(boxes)
      modifies this
      ensures WellFormed(boxes)
      ensures boxes == ClearRows(old(boxes))
    {
      ghost var start := boxes;
      var fullRows: seq<nat> := [];
      var i := 0;
      while i < |boxes|
        invariant 0 <= i <= |boxes| && boxes == start
        invariant fullRows == FullRowIndices(boxes[..i])
      {
        FullRowIndicesStep(boxes, i);
        if FullRow(boxes[i]) {
          fullRows := fullRows + [i];
        }
        i := i + 1;
      }
      assert boxes[..|boxes|] == boxes;
      var order := Reversed(fullRows);
      assert order == DeletionOrder(start);
      DeletionOrderProperties(start);
      var k := 0;
      while k < |order|
        invariant 0 <= k <= |order|
        invariant boxes == ApplyDeletions(start, order[..k])
      {
        var rowIndex := order[k];
        ApplyDeletionsStep(start, order, k);
        boxes := boxes[..rowIndex] + boxes[rowIndex + 1..];
        boxes := [EmptyRow()] + boxes;
        k := k + 1;
      }
      assert order[..|order|] == order;
    }

    /** The game-over test of the top row: some box of row 0 is filled. */
    method TopRowOccupied() returns (over: bool)
      requires Valid()
      ensures over <==> exists c :: 0 <= c < WIDTH && boxes[0][c] != Empty
    {
      over := false;
      var c := 0;
      while c < |boxes[0]|
        invariant 0 <= c <= |boxes[0]|
        invariant !over
        invariant forall j :: 0 <= j < c ==> boxes[0][j] == Empty
      {
        if boxes[0][c] != Empty {
          over := true;
          break;
        }
        c := c + 1;
      }
    }

    /** One key press: a recognised key issues its movement, any other key
        issues none. */
    method PressKey(key: string, shapeIndex: nat, colourIndex: nat)
      requires Valid()
      requires shapeIndex < |SHAPES| && colourIndex < |COLOURS|
      requires MovementOfKey(key) != Some(Rotate) && MovementOfKey(key).Some? ==>
        AllInBounds(piece.cells)
      modifies this, piece
      ensures Valid()
      ensures MovementOfKey(key) == None ==>
        && boxes == old(boxes)
        && piece.cells == old(piece.cells)
        && piece.colour == old(piece.colour)
        && piece.rotationState == old(piece.rotationState)
    {
      match MovementOfKey(key)
      case Some(m) => MovePiece(m, shapeIndex, colourIndex);
      case None =>
    }
  }
}
