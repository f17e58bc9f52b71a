/** The transitions of the main loop: a new game, the player's moves, the hard
    drop, gravity, and settling a piece (lock, clear, hand out the next piece
    chosen by the adversarial selector, end the game when it does not fit).
    Timing and input polling are outside the model: each change a pass of the
    main loop makes is one `Intent`, and a pass is a short run of them. */
module Session {
  import opened Shapes
  import opened Grid
  import opened Pieces
  import opened Placement
  import opened Games
  import opened Selector

  /** The game at start-up: the first piece, of kind `k`, at the spawn position
      of an empty board. */
  function NewGame(k: Kind): Game
  {
    Game(EmptyBoard(), Spawn(k), false, 0)
  }

  /** What every reachable game keeps: while the game runs the falling piece
      fits, every cell holds an empty mark or a kind's tag, no row is left
      full, and the score is not negative. */
  predicate Live(g: Game)
  {
    && (!g.gameOver ==> CanPlace(g.board, g.cur))
    && Tagged(g.board)
    && CountFull(g.board) == 0
    && g.score >= 0
  }

  /** The empty board has no full row. */
  lemma EmptyBoardClear()
    ensures CountFull(EmptyBoard()) == 0
  {
    assert EmptyBoard() == BlankRows(ROWS);
    BlankRowsCount(ROWS);
  }

  /** Every first piece fits: the spawn box spans columns 3 to 6 and rows -2
      to 1 of an empty board. */
  lemma SpawnFits(k: Kind)
    ensures CanPlace(EmptyBoard(), Spawn(k))
  {
    var p := Spawn(k);
    CellsForShape(p);
    forall j | 0 <= j < |CellsFor(p)|
      ensures Vacant(EmptyBoard(), CellsFor(p)[j])
    {
      var c := CellsFor(p)[j];
      assert 3 <= c.x < 7 && -2 <= c.y < 2;
      if c.y >= 0 {
        assert EmptyBoard()[c.y][c.x] == 0;
      }
    }
  }

  /** A new game is live. */
  lemma NewGameLive(k: Kind)
    ensures Live(NewGame(k))
  {
    SpawnFits(k);
    EmptyBoardClear();
  }

  /** The hard drop's `while (moveIf(0, +1))` loop: move the piece down one row
      for as long as it fits there. */
  function SlideDown(g: Game): (g': Game)
    ensures g'.board == g.board && g'.gameOver == g.gameOver && g'.score == g.score
    ensures g'.cur.kind == g.cur.kind && g'.cur.rotation == g.cur.rotation && g'.cur.x == g.cur.x
    ensures g'.cur.y >= g.cur.y
    ensures !CanPlace(g.board, Move(g'.cur, 0, 1))
    ensures g'.cur != g.cur ==> CanPlace(g.board, g'.cur)
    decreases ROWS - g.cur.y
  {
    var m := MoveIf(g, 0, 1);
    if m.0 then
      PlaceableAnchor(g.board, Move(g.cur, 0, 1));
      SlideDown(m.1)
    else g
  }

  /** The hard drop ends where the selector's drop ends: on a piece that fits,
      sliding down and falling-then-stepping-back agree. */
  lemma {:induction false} SlideDownIsDrop(g: Game)
    requires CanPlace(g.board, g.cur)
    ensures SlideDown(g).cur == Drop(g.board, g.cur)
    decreases ROWS - g.cur.y
  {
    var below := Move(g.cur, 0, 1);
    assert Fall(g.board, g.cur) == Fall(g.board, below);
    if CanPlace(g.board, below) {
      PlaceableAnchor(g.board, below);
      SlideDownIsDrop(g.(cur := below));
    } else {
      assert Fall(g.board, below) == below;
    }
  }

  /** Settling the falling piece, as both the hard drop and gravity do it:
      lock it, clear the full rows, take the selector's piece for the cleared
      board, and end the game when that piece does not fit. */
  function Settle(g: Game): (g': Game)
    requires Lockable(g.cur)
  {
    var cleared := ClearLines(LockPiece(g)).1;
    var next := WorstPiece(cleared);
    cleared.(cur := next, gameOver := cleared.gameOver || !CanPlace(cleared.board, next))
  }

  /** What settling does: the board is the locked board with its full rows
      cleared, the score grows by the table entry for that many rows, the
      next piece is the selector's, at the spawn position, and the game is
      over when it was already, when the lock reached outside the board rows,
      or when the next piece does not fit. */
  lemma SettleEffect(g: Game)
    requires Lockable(g.cur)
    ensures Settle(g).board == Cleared(LockPiece(g).board)
    ensures CountFull(Settle(g).board) == 0
    ensures Settle(g).score == g.score + LineScore(CountFull(LockPiece(g).board))
    ensures Settle(g).cur == WorstPiece(ClearLines(LockPiece(g)).1) && Settle(g).cur == Spawn(Settle(g).cur.kind)
    ensures Settle(g).gameOver <==>
              g.gameOver || Overhangs(CellsFor(g.cur)) || !CanPlace(Settle(g).board, Settle(g).cur)
  {
    LockPieceEffect(g);
  }

  /** Settling keeps every board cell a tag. */
  lemma SettleTags(g: Game)
    requires Lockable(g.cur) && Tagged(g.board)
    ensures Tagged(Settle(g).board)
  {
    LockKeepsTags(g);
    ClearKeepsTags(LockPiece(g));
  }

  /** Settling a live game's piece keeps the game live. */
  lemma SettleLive(g: Game)
    requires Lockable(g.cur) && Live(g)
    ensures Live(Settle(g))
  {
    SettleEffect(g);
    SettleTags(g);
  }

  /** One change within a pass of the main loop: a key press (rotate
      clockwise, left, right, hard drop), the held soft-drop key, or the
      gravity timer firing. A pass handles every pending key press, then the
      soft drop, then gravity, so it is a short `Run` of intents. */
  datatype Intent = RotateCW | MoveLeft | MoveRight | SoftDrop | HardDrop | Gravity

  /** The effect of one intent. A game that is over ignores every intent. The
      soft drop only moves; gravity moves, or settles the piece when it cannot;
      the hard drop slides the piece down and settles it. */
  function Step(g: Game, i: Intent): (g': Game)
    requires Live(g)
  {
    if g.gameOver then g
    else
      match i
      case RotateCW => g.(cur := TryRotate(g.board, g.cur, 1).1)
      case MoveLeft => MoveIf(g, -1, 0).1
      case MoveRight => MoveIf(g, 1, 0).1
      case SoftDrop => MoveIf(g, 0, 1).1
      case HardDrop =>
        var d := SlideDown(g);
        PlaceableIsLockable(d.board, d.cur);
        Settle(d)
      case Gravity =>
        var m := MoveIf(g, 0, 1);
        if m.0 then m.1
        else
          PlaceableIsLockable(g.board, g.cur);
          Settle(g)
  }

  /** Every intent keeps a live game live. */
  lemma StepLive(g: Game, i: Intent)
    requires Live(g)
    ensures Live(Step(g, i))
  {
    if !g.gameOver {
      match i
      case RotateCW =>
      case MoveLeft =>
      case MoveRight =>
      case SoftDrop =>
      case HardDrop =>
        var d := SlideDown(g);
        PlaceableIsLockable(d.board, d.cur);
        SettleLive(d);
      case Gravity =>
        if !MoveIf(g, 0, 1).0 {
          PlaceableIsLockable(g.board, g.cur);
          SettleLive(g);
        }
    }
  }

  /** Only settling changes the board, the score or the game-over flag; the
      moves change the falling piece alone, and only to a position where it
      fits. */
  lemma MovesKeepBoard(g: Game, i: Intent)
    requires Live(g) && !g.gameOver
    requires i == RotateCW || i == MoveLeft || i == MoveRight || i == SoftDrop
    ensures Step(g, i) == g.(cur := Step(g, i).cur)
    ensures CanPlace(g.board, Step(g, i).cur)
  {
  }

  /** The score never goes down. */
  lemma StepScore(g: Game, i: Intent)
    requires Live(g)
    ensures Step(g, i).score >= g.score
  {
    if !g.gameOver {
      match i
      case RotateCW =>
      case MoveLeft =>
      case MoveRight =>
      case SoftDrop =>
      case HardDrop =>
        var d := SlideDown(g);
        PlaceableIsLockable(d.board, d.cur);
        SettleEffect(d);
      case Gravity =>
        if !MoveIf(g, 0, 1).0 {
          PlaceableIsLockable(g.board, g.cur);
          SettleEffect(g);
        }
    }
  }

  /** A game that is over stays over, and nothing changes it any more. */
  lemma GameOverFinal(g: Game, i: Intent)
    requires Live(g) && g.gameOver
    ensures Step(g, i) == g
  {
  }

  /** Once the game is running, the game-over flag goes up only by settling a
      piece whose lock reached outside the board rows or whose successor does
      not fit. */
  lemma GameOverCause(g: Game, i: Intent)
    requires Live(g) && !g.gameOver
    ensures Step(g, i).gameOver ==> i == HardDrop || i == Gravity
    ensures Step(g, i).gameOver && i == HardDrop ==>
              Overhangs(CellsFor(SlideDown(g).cur)) || !CanPlace(Step(g, i).board, Step(g, i).cur)
    ensures Step(g, i).gameOver && i == Gravity ==>
              Overhangs(CellsFor(g.cur)) || !CanPlace(Step(g, i).board, Step(g, i).cur)
  {
    match i
    case RotateCW =>
    case MoveLeft =>
    case MoveRight =>
    case SoftDrop =>
    case HardDrop =>
      var d := SlideDown(g);
      PlaceableIsLockable(d.board, d.cur);
      SettleEffect(d);
    case Gravity =>
      if !MoveIf(g, 0, 1).0 {
        PlaceableIsLockable(g.board, g.cur);
        SettleEffect(g);
      }
  }

  /** A session: the intents applied one after another. */
  function Run(g: Game, intents: seq<Intent>): Game
    requires Live(g)
    decreases |intents|
  {
    if |intents| == 0 then g
    else
      StepLive(g, intents[0]);
      Run(Step(g, intents[0]), intents[1..])
  }

  /** Every session keeps the game live, never lowers the score, and leaves a
      game that is over as it was. */
  lemma {:induction false} RunLive(g: Game, intents: seq<Intent>)
    requires Live(g)
    ensures Live(Run(g, intents))
    ensures Run(g, intents).score >= g.score
    ensures g.gameOver ==> Run(g, intents) == g
    decreases |intents|
  {
    if |intents| > 0 {
      StepLive(g, intents[0]);
      StepScore(g, intents[0]);
      RunLive(Step(g, intents[0]), intents[1..]);
    }
  }

  /** Every session from a new game is live: in particular while it runs the
      falling piece fits, and no row stays full. */
  lemma SessionLive(k: Kind, intents: seq<Intent>)
    ensures Live(NewGame(k))
    ensures Live(Run(NewGame(k), intents))
    ensures Run(NewGame(k), intents).score >= 0
  {
    NewGameLive(k);
    RunLive(NewGame(k), intents);
  }
}
