/** The game state and the operations that change it: locking the current
    piece into the board, clearing full rows with the score they earn, and a
    move that happens only when the moved piece fits. */
module Games {
  import opened Shapes
  import opened Grid
  import opened Pieces
  import opened Placement

  /** The board, the falling piece, the game-over flag and the score. */
  datatype Game = Game(board: Board, cur: Piece, gameOver: bool, score: int)

  /** The tag a locked cell of kind `k` receives (0 stays for empty cells). */
  function Tag(k: Kind): (t: int)
    ensures 1 <= t <= KINDS
  {
    k + 1
  }

  /** Every cell of `cells` that lies in a board row also lies in a board
      column, so writing it stays inside the board. */
  predicate Writable(cells: seq<Cell>)
  {
    forall j :: 0 <= j < |cells| && 0 <= cells[j].y < ROWS ==> 0 <= cells[j].x < COLS
  }

  /** Whether some cell of `cells` lies outside the board rows. */
  predicate Overhangs(cells: seq<Cell>)
  {
    exists j :: 0 <= j < |cells| && !(0 <= cells[j].y < ROWS)
  }

  /** Whether `p` can be locked without writing outside the board. */
  predicate Lockable(p: Piece)
  {
    Writable(CellsFor(p))
  }

  /** Every placeable piece is lockable. */
  lemma PlaceableIsLockable(b: Board, p: Piece)
    requires CanPlace(b, p)
    ensures Lockable(p)
  {
    forall j | 0 <= j < |CellsFor(p)| && 0 <= CellsFor(p)[j].y < ROWS
      ensures 0 <= CellsFor(p)[j].x < COLS
    {
      assert Vacant(b, CellsFor(p)[j]);
    }
  }

  /** The loop of `lockPiece`, one cell at a time: a cell in a board row is
      written with `tag`, any other cell raises the game-over flag instead. */
  function LockCells(b: Board, over: bool, cells: seq<Cell>, tag: int): (res: (Board, bool))
    requires Writable(cells)
    decreases |cells|
    ensures res.1 <==> over || Overhangs(cells)
    ensures forall r, c :: 0 <= r < ROWS && 0 <= c < COLS ==>
              res.0[r][c] == (if Cell(c, r) in cells then tag else b[r][c])
  {
    if |cells| == 0 then (b, over)
    else
      var cell := cells[0];
      assert forall j :: 1 <= j < |cells| ==> cells[1..][j - 1] == cells[j];
      if 0 <= cell.y < ROWS then
        var row: Row := b[cell.y][cell.x := tag];
        LockCells(b[cell.y := row], over, cells[1..], tag)
      else
        LockCells(b, true, cells[1..], tag)
  }

  /** `lockPiece`: the current piece's cells that lie in the board take its
      tag; a cell above the top (or below the floor) ends the game. Locking
      is partial: the in-board cells are written even when the game ends. */
  function LockPiece(g: Game): (g': Game)
    requires Lockable(g.cur)
    ensures g'.cur == g.cur && g'.score == g.score
  {
    var res := LockCells(g.board, g.gameOver, CellsFor(g.cur), Tag(g.cur.kind));
    g.(board := res.0, gameOver := res.1)
  }

  /** What locking does, cell by cell, and when it ends the game. */
  lemma LockPieceEffect(g: Game)
    requires Lockable(g.cur)
    ensures LockPiece(g).gameOver <==> g.gameOver || Overhangs(CellsFor(g.cur))
    ensures forall r, c :: 0 <= r < ROWS && 0 <= c < COLS ==>
              LockPiece(g).board[r][c] == (if Cell(c, r) in CellsFor(g.cur) then Tag(g.cur.kind) else g.board[r][c])
  {
  }

  /** A piece entirely above the top leaves the board as it was and ends the game. */
  lemma LockAboveTop(g: Game)
    requires Lockable(g.cur)
    requires forall j :: 0 <= j < |CellsFor(g.cur)| ==> CellsFor(g.cur)[j].y < 0
    ensures LockPiece(g).board == g.board
    ensures LockPiece(g).gameOver
  {
    CellsForShape(g.cur);
    LockPieceEffect(g);
    var cells := CellsFor(g.cur);
    var b := LockPiece(g).board;
    forall r | 0 <= r < ROWS
      ensures b[r] == g.board[r]
    {
      forall c | 0 <= c < COLS
        ensures b[r][c] == g.board[r][c]
      {
        forall j | 0 <= j < |cells|
          ensures cells[j] != Cell(c, r)
        {
        }
      }
    }
  }

  /** A piece placed entirely inside the board locks without ending the game. */
  lemma LockInside(g: Game)
    requires CanPlace(g.board, g.cur)
    requires forall j :: 0 <= j < |CellsFor(g.cur)| ==> 0 <= CellsFor(g.cur)[j].y
    ensures Lockable(g.cur)
    ensures LockPiece(g).gameOver == g.gameOver
  {
    PlaceableIsLockable(g.board, g.cur);
    var cells := CellsFor(g.cur);
    forall j | 0 <= j < |cells|
      ensures 0 <= cells[j].y < ROWS
    {
      assert Vacant(g.board, cells[j]);
    }
  }

  /** Locking keeps every board cell a tag between 0 and the number of kinds. */
  lemma LockKeepsTags(g: Game)
    requires Lockable(g.cur)
    requires Tagged(g.board)
    ensures Tagged(LockPiece(g).board)
  {
    LockPieceEffect(g);
  }

  /** Every cell holds 0 (empty) or the tag of some kind. */
  predicate Tagged(b: Board)
  {
    forall r, c :: 0 <= r < ROWS && 0 <= c < COLS ==> 0 <= b[r][c] <= KINDS
  }

  /** `clearLines` as a whole: the full rows are removed, the score grows by the
      table entry for their number, and that number is returned. */
  function ClearLines(g: Game): (res: (nat, Game))
    ensures res.0 == CountFull(g.board)
    ensures res.1.cur == g.cur && res.1.gameOver == g.gameOver
    ensures res.1.score == g.score + LineScore(res.0)
    ensures CountFull(res.1.board) == 0
    ensures CellCount(res.1.board) == CellCount(g.board) - COLS * res.0
  {
    ClearedIdempotent(g.board);
    ClearedCount(g.board);
    (CountFull(g.board), g.(board := Cleared(g.board), score := g.score + LineScore(CountFull(g.board))))
  }

  /** Clearing keeps every board cell a tag. */
  lemma ClearKeepsTags(g: Game)
    requires Tagged(g.board)
    ensures Tagged(ClearLines(g).1.board)
  {
    var b := g.board;
    var n := CountFull(b);
    ClearedShape(b);
    KeptRows(b);
    forall r, c | 0 <= r < ROWS && 0 <= c < COLS
      ensures 0 <= Cleared(b)[r][c] <= KINDS
    {
      if r >= n {
        assert Cleared(b)[r] == Kept(b)[r - n];
        assert Kept(b)[r - n] in b;
      } else {
        assert Cleared(b)[r] == EMPTY_ROW;
      }
    }
  }

  /** An immediate second clear finds no full row and changes nothing. */
  lemma ClearLinesTwice(g: Game)
    ensures ClearLines(ClearLines(g).1) == (0, ClearLines(g).1)
  {
    ClearedIdempotent(g.board);
  }

  /** The loop of `clearLines`: scan from the bottom row up; a full row is
      removed by pulling every row above it down one and emptying the top row,
      and the same row index is examined again, since it now holds the row that
      was above it. */
  method ClearLinesScan(g: Game) returns (lines: nat, g': Game)
    ensures (lines, g') == ClearLines(g)
  {
    var B := g.board;
    var b := B;
    lines := 0;
    var r := ROWS - 1;
    ghost var m := ROWS;
    ScanningStart(B);
    while r >= 0
      invariant Scanning(B, b, lines, m, r)
      decreases r + m + 1
    {
      b, lines, m, r := ClearStep(B, b, lines, m, r);
    }
    ScanningDone(B, b, lines, m, r);
    g' := g.(board := b, score := g.score + LineScore(lines));
  }

  /** `moveIf`: the current piece moves by (dx, dy) only when it fits there;
      the result says whether it moved. */
  function MoveIf(g: Game, dx: int, dy: int): (res: (bool, Game))
    ensures res.0 <==> CanPlace(g.board, Move(g.cur, dx, dy))
    ensures res.0 ==> res.1 == g.(cur := Move(g.cur, dx, dy))
    ensures !res.0 ==> res.1 == g
    ensures res.1.board == g.board && res.1.score == g.score && res.1.gameOver == g.gameOver
    ensures CanPlace(g.board, g.cur) ==> CanPlace(res.1.board, res.1.cur)
  {
    var t := Move(g.cur, dx, dy);
    if CanPlace(g.board, t) then (true, g.(cur := t)) else (false, g)
  }

  /** A move that succeeded from a placeable position is undone by the
      opposite move. */
  lemma MoveIfInverse(g: Game, dx: int, dy: int)
    requires CanPlace(g.board, g.cur)
    requires MoveIf(g, dx, dy).0
    ensures MoveIf(MoveIf(g, dx, dy).1, -dx, -dy) == (true, g)
  {
    assert Move(Move(g.cur, dx, dy), -dx, -dy) == g.cur;
  }
}
