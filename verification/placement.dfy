/** Where a piece may be: the bounds rule for a single cell (no lower bound on
    the row, so cells above the top are allowed), the collision rule for a whole
    piece, and rotation with wall kicks. */
module Placement {
  import opened Shapes
  import opened Grid
  import opened Pieces

  /** Inside the walls and above the floor; rows above the top are allowed. */
  predicate InBounds(c: Cell)
  {
    0 <= c.x < COLS && c.y < ROWS
  }

  /** A cell a piece may occupy: in bounds, and either above the top or empty. */
  predicate Vacant(b: Board, c: Cell)
  {
    InBounds(c) && (c.y < 0 || b[c.y][c.x] == 0)
  }

  /** The loop of `canPlace` over a list of cells, stopping at the first one
      that is out of bounds or collides. */
  function Fits(b: Board, cells: seq<Cell>): (ok: bool)
    ensures ok <==> forall j :: 0 <= j < |cells| ==> Vacant(b, cells[j])
  {
    if |cells| == 0 then true
    else if !Vacant(b, cells[0]) then false
    else Fits(b, cells[1..])
  }

  /** Whether `p` may occupy its position on `b`. */
  function CanPlace(b: Board, p: Piece): bool
  {
    Fits(b, CellsFor(p))
  }

  /** A placeable piece has its anchor between column -2 and the last column and
      above the floor: the column range the worst-piece search scans covers
      every placeable column. */
  lemma PlaceableAnchor(b: Board, p: Piece)
    requires CanPlace(b, p)
    ensures -2 <= p.x < COLS && p.y < ROWS
  {
    CellsForShape(p);
    assert Vacant(b, CellsFor(p)[0]);
  }

  /** A piece whose cells all lie in the columns and above the top row can be
      placed whatever the board holds. */
  lemma AboveTopPlaceable(b: Board, p: Piece)
    requires forall j :: 0 <= j < |CellsFor(p)| ==> 0 <= CellsFor(p)[j].x < COLS && CellsFor(p)[j].y < 0
    ensures CanPlace(b, p)
  {
  }

  /** Only the board cells under the piece matter: two boards that agree there
      give the same answer. */
  lemma PlaceLocal(b1: Board, b2: Board, p: Piece)
    requires forall j :: 0 <= j < |CellsFor(p)| && 0 <= CellsFor(p)[j].y < ROWS && 0 <= CellsFor(p)[j].x < COLS ==>
               b1[CellsFor(p)[j].y][CellsFor(p)[j].x] == b2[CellsFor(p)[j].y][CellsFor(p)[j].x]
    ensures CanPlace(b1, p) <==> CanPlace(b2, p)
  {
  }

  /** The horizontal offsets a rotation tries, in order. */
  const KICKS: seq<int> := [0, -1, 1, -2, 2]

  /** The rotated piece shifted by kick `j`. */
  function Kicked(test: Piece, j: int): Piece
    requires 0 <= j < |KICKS|
  {
    Move(test, KICKS[j], 0)
  }

  /** The index of the first kick from `i` on that makes `test` placeable, or
      |KICKS| when none does. */
  function FirstKick(b: Board, test: Piece, i: nat): (k: nat)
    requires i <= |KICKS|
    ensures i <= k <= |KICKS|
    ensures k < |KICKS| ==> CanPlace(b, Kicked(test, k))
    ensures forall j :: i <= j < k ==> !CanPlace(b, Kicked(test, j))
    decreases |KICKS| - i
  {
    if i == |KICKS| then i
    else if CanPlace(b, Kicked(test, i)) then i
    else FirstKick(b, test, i + 1)
  }

  /** Rotation with wall kicks: rotate, then take the first kick that fits; when
      none fits, report failure and leave the piece where it was. */
  function TryRotate(b: Board, p: Piece, dir: int): (res: (bool, Piece))
    ensures res.0 <==> exists j :: 0 <= j < |KICKS| && CanPlace(b, Kicked(Rotate(p, dir), j))
    ensures res.0 ==> CanPlace(b, res.1)
    ensures res.0 ==> exists j :: 0 <= j < |KICKS| && res.1 == Kicked(Rotate(p, dir), j) &&
                       forall i :: 0 <= i < j ==> !CanPlace(b, Kicked(Rotate(p, dir), i))
    ensures !res.0 ==> res.1 == p
  {
    var test := Rotate(p, dir);
    var k := FirstKick(b, test, 0);
    if k < |KICKS| then (true, Kicked(test, k)) else (false, p)
  }

  /** A successful rotation keeps the kind and the row, changes the rotation
      state by one step and the column by at most two. */
  lemma TryRotateMoves(b: Board, p: Piece, dir: int)
    requires TryRotate(b, p, dir).0
    ensures TryRotate(b, p, dir).1.kind == p.kind
    ensures TryRotate(b, p, dir).1.y == p.y
    ensures TryRotate(b, p, dir).1.rotation == Rotate(p, dir).rotation
    ensures -2 <= TryRotate(b, p, dir).1.x - p.x <= 2
  {
  }

  /** A vertical I piece against the left wall cannot turn in place or with the
      first three kicks; the fifth kick (two to the right) is the one taken. */
  lemma WallKickScenario()
    ensures TryRotate(EmptyBoard(), Piece(0, 1, -2, 5), 1) == (true, Piece(0, 2, 0, 5))
  {
    var b := EmptyBoard();
    var test := Piece(0, 2, -2, 5);
    assert Rotate(Piece(0, 1, -2, 5), 1) == test;
    assert !CanPlace(b, Kicked(test, 0)) by { assert CellsFor(Kicked(test, 0))[0] == Cell(-2, 7); }
    assert !CanPlace(b, Kicked(test, 1)) by { assert CellsFor(Kicked(test, 1))[0] == Cell(-3, 7); }
    assert !CanPlace(b, Kicked(test, 2)) by { assert CellsFor(Kicked(test, 2))[0] == Cell(-1, 7); }
    assert !CanPlace(b, Kicked(test, 3)) by { assert CellsFor(Kicked(test, 3))[0] == Cell(-4, 7); }
    assert CanPlace(b, Kicked(test, 4));
    assert FirstKick(b, test, 0) == 4;
  }
}
