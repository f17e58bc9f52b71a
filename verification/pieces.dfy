/** A piece instance: a kind, a rotation state and the board position of the
    top-left corner of its 4x4 mask; the board cells it covers; translation and
    rotation of a piece (neither checks legality). */
module Pieces {
  import opened Shapes

  datatype Cell = Cell(x: int, y: int)

  datatype Piece = Piece(kind: Kind, rotation: Rotation, x: int, y: int)

  /** The mask position of a cell of a piece anchored at (x, y). */
  function Offset(cell: Cell, x: int, y: int): int
  {
    MaskIndex(cell.y - y, cell.x - x)
  }

  /** The board cells of the mask positions `ix` for a mask anchored at (x, y). */
  function Place(ix: seq<int>, x: int, y: int): (cells: seq<Cell>)
    ensures |cells| == |ix|
  {
    seq(|ix|, j requires 0 <= j < |ix| => Cell(x + MaskCol(ix[j]), y + MaskRow(ix[j])))
  }

  /** The double loop of `cellsFor`, rows outer and columns inner, from mask
      position `i` on: each occupied position yields the board cell at the
      anchor plus its column and row. */
  function CellsFrom(m: string, x: int, y: int, i: int): (cells: seq<Cell>)
    requires |m| == MASK_SIZE && 0 <= i <= MASK_SIZE
    decreases MASK_SIZE - i
  {
    if i == MASK_SIZE then []
    else (if CellFilled(m, i) then [Cell(x + MaskCol(i), y + MaskRow(i))] else []) + CellsFrom(m, x, y, i + 1)
  }

  /** Placing a leading mask position yields its cell ahead of the rest. */
  lemma PlaceCons(i: int, tail: seq<int>, x: int, y: int)
    ensures Place([i] + tail, x, y) == [Cell(x + MaskCol(i), y + MaskRow(i))] + Place(tail, x, y)
  {
    var lhs := Place([i] + tail, x, y);
    var rhs := [Cell(x + MaskCol(i), y + MaskRow(i))] + Place(tail, x, y);
    forall j | 0 <= j < |lhs|
      ensures lhs[j] == rhs[j]
    {
      if j > 0 {
        assert ([i] + tail)[j] == tail[j - 1];
      }
    }
  }

  /** The scan lists the cells of the occupied positions, in mask order. */
  lemma {:induction false} CellsFromPlace(m: string, x: int, y: int, i: int)
    requires |m| == MASK_SIZE && 0 <= i <= MASK_SIZE
    ensures CellsFrom(m, x, y, i) == Place(FilledIndices(m, i), x, y)
    decreases MASK_SIZE - i
  {
    if i < MASK_SIZE {
      CellsFromPlace(m, x, y, i + 1);
      var tail := FilledIndices(m, i + 1);
      if CellFilled(m, i) {
        assert FilledIndices(m, i) == [i] + tail;
        PlaceCons(i, tail, x, y);
      } else {
        assert FilledIndices(m, i) == tail;
      }
    }
  }

  /** The cells `p` covers: its mask's occupied positions, read off the
      catalog, moved to the piece's anchor. */
  function CellsFor(p: Piece): seq<Cell>
  {
    Place(Footprint(p.kind, p.rotation), p.x, p.y)
  }

  /** CellsFor is what the double loop over the piece's mask yields. */
  lemma CellsForScan(p: Piece)
    ensures CellsFor(p) == CellsFrom(Mask(p.kind, p.rotation), p.x, p.y, 0)
  {
    CatalogFootprint(p.kind, p.rotation);
    CellsFromPlace(Mask(p.kind, p.rotation), p.x, p.y, 0);
  }

  /** Every piece covers exactly four cells, each inside its 4x4 box on an
      occupied position of its mask, in row-major order, and the first of them
      in the three leftmost columns of the box. */
  lemma CellsForShape(p: Piece)
    ensures |CellsFor(p)| == 4
    ensures forall j :: 0 <= j < 4 ==>
              && p.x <= CellsFor(p)[j].x < p.x + MASK_SIDE
              && p.y <= CellsFor(p)[j].y < p.y + MASK_SIDE
              && Offset(CellsFor(p)[j], p.x, p.y) == Footprint(p.kind, p.rotation)[j]
    ensures forall a, b :: 0 <= a < b < 4 ==>
              Offset(CellsFor(p)[a], p.x, p.y) < Offset(CellsFor(p)[b], p.x, p.y)
    ensures CellsFor(p)[0].x <= p.x + 2
  {
    FootprintShape(p.kind, p.rotation);
  }

  /** The piece translated by (dx, dy); legality is the caller's business. */
  function Move(p: Piece, dx: int, dy: int): Piece
  {
    p.(x := p.x + dx, y := p.y + dy)
  }

  /** Translating a piece translates each of its cells, in the same order. */
  lemma MoveCells(p: Piece, dx: int, dy: int)
    ensures |CellsFor(Move(p, dx, dy))| == |CellsFor(p)|
    ensures forall j :: 0 <= j < |CellsFor(p)| ==>
              CellsFor(Move(p, dx, dy))[j] == Cell(CellsFor(p)[j].x + dx, CellsFor(p)[j].y + dy)
  {
  }

  /** One rotation step: clockwise for a positive direction, counter-clockwise for
      any other. `rotate` adds 1 or 3 and keeps the two low bits (`& 3`), which
      for a two's-complement integer is its remainder modulo 4. */
  function Rotate(p: Piece, dir: int): (q: Piece)
    ensures q.kind == p.kind && q.x == p.x && q.y == p.y
    ensures dir > 0 ==> (q.rotation - p.rotation - 1) % ROTATIONS == 0
    ensures dir <= 0 ==> (q.rotation - p.rotation + 1) % ROTATIONS == 0
  {
    p.(rotation := (p.rotation + (if dir > 0 then 1 else 3)) % ROTATIONS)
  }

  /** A clockwise and a counter-clockwise step undo each other. */
  lemma RotateInverse(p: Piece)
    ensures Rotate(Rotate(p, 1), -1) == p
    ensures Rotate(Rotate(p, -1), 1) == p
  {
  }

  /** Four steps in the same direction return to the starting state. */
  lemma RotateFourTimes(p: Piece, dir: int)
    ensures Rotate(Rotate(Rotate(Rotate(p, dir), dir), dir), dir) == p
  {
    RotateDirection(p, dir);
    if p.rotation == 0 {
    } else if p.rotation == 1 {
    } else if p.rotation == 2 {
    } else {
    }
  }

  /** Only the sign of the direction matters; zero counts as counter-clockwise. */
  lemma RotateDirection(p: Piece, dir: int)
    ensures Rotate(p, dir) == Rotate(p, if dir > 0 then 1 else -1)
  {
  }
}
