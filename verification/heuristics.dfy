/** The board heuristic `evaluateBoard`: the stack height and the number of
    holes (empty cells below some block of their column), weighted 5 and 10.
    The selector does not call it; it is modelled with a reference
    definition column by column and the program's scan proved equal to it. */
module Heuristics {
  import opened Grid

  /** The first row from `r` down whose cell in column `c` holds a block, or
      ROWS when there is none. */
  function TopRow(b: Board, c: int, r: int): (t: int)
    requires 0 <= c < COLS && 0 <= r <= ROWS
    ensures r <= t <= ROWS
    ensures t < ROWS ==> b[t][c] != 0
    ensures forall rr :: r <= rr < t ==> b[rr][c] == 0
    decreases ROWS - r
  {
    if r == ROWS then ROWS
    else if b[r][c] != 0 then r
    else TopRow(b, c, r + 1)
  }

  /** The number of empty cells of column `c` in rows lo .. hi - 1. */
  function EmptyCells(b: Board, c: int, lo: int, hi: int): nat
    requires 0 <= c < COLS && 0 <= lo && hi <= ROWS
    decreases hi - lo
  {
    if hi <= lo then 0
    else EmptyCells(b, c, lo, hi - 1) + (if b[hi - 1][c] == 0 then 1 else 0)
  }

  /** The holes of column `c`: its empty cells below its topmost block. */
  function ColumnHoles(b: Board, c: int): nat
    requires 0 <= c < COLS
  {
    EmptyCells(b, c, TopRow(b, c, 0), ROWS)
  }

  /** The height of column `c`: the rows from its topmost block down to the
      floor, 0 for an empty column. */
  function ColumnHeight(b: Board, c: int): nat
    requires 0 <= c < COLS
  {
    ROWS - TopRow(b, c, 0)
  }

  /** The holes of the first `n` columns. */
  function Holes(b: Board, n: int): nat
    requires 0 <= n <= COLS
  {
    if n == 0 then 0 else Holes(b, n - 1) + ColumnHoles(b, n - 1)
  }

  /** The greatest height among the first `n` columns. */
  function Height(b: Board, n: int): nat
    requires 0 <= n <= COLS
  {
    if n == 0 then 0
    else
      var h := Height(b, n - 1);
      if ColumnHeight(b, n - 1) > h then ColumnHeight(b, n - 1) else h
  }

  /** `evaluateBoard`: five points per row of stack height, ten per hole. */
  function Evaluation(b: Board): int
  {
    Height(b, COLS) * 5 + Holes(b, COLS) * 10
  }

  /** No column has more holes than rows. */
  lemma {:induction false} EmptyCellsBound(b: Board, c: int, lo: int, hi: int)
    requires 0 <= c < COLS && 0 <= lo && hi <= ROWS
    ensures EmptyCells(b, c, lo, hi) <= if hi <= lo then 0 else hi - lo
    decreases hi - lo
  {
    if hi > lo {
      EmptyCellsBound(b, c, lo, hi - 1);
    }
  }

  /** A block is not a hole: starting the count at a block skips it. */
  lemma {:induction false} EmptyCellsSkipBlock(b: Board, c: int, lo: int, hi: int)
    requires 0 <= c < COLS && 0 <= lo < hi <= ROWS && b[lo][c] != 0
    ensures EmptyCells(b, c, lo, hi) == EmptyCells(b, c, lo + 1, hi)
    decreases hi - lo
  {
    if hi > lo + 1 {
      EmptyCellsSkipBlock(b, c, lo, hi - 1);
    }
  }

  /** A column has fewer holes than its height: its topmost block is not a
      hole, and an empty column has none. */
  lemma ColumnHolesBound(b: Board, c: int)
    requires 0 <= c < COLS
    ensures ColumnHeight(b, c) == 0 ==> ColumnHoles(b, c) == 0
    ensures ColumnHeight(b, c) > 0 ==> ColumnHoles(b, c) < ColumnHeight(b, c)
  {
    var t := TopRow(b, c, 0);
    if t < ROWS {
      EmptyCellsSkipBlock(b, c, t, ROWS);
      EmptyCellsBound(b, c, t + 1, ROWS);
    }
  }

  /** The height is at least every column height, and at most ROWS. */
  lemma {:induction false} HeightBounds(b: Board, n: int)
    requires 0 <= n <= COLS
    ensures Height(b, n) <= ROWS
    ensures forall c :: 0 <= c < n ==> ColumnHeight(b, c) <= Height(b, n)
  {
    if n > 0 {
      HeightBounds(b, n - 1);
    }
  }

  /** The height is the height of some column. */
  lemma {:induction false} HeightAttained(b: Board, n: int)
    requires 0 < n <= COLS
    ensures exists c :: 0 <= c < n && ColumnHeight(b, c) == Height(b, n)
  {
    if n > 1 && ColumnHeight(b, n - 1) <= Height(b, n - 1) {
      HeightAttained(b, n - 1);
      var c :| 0 <= c < n - 1 && ColumnHeight(b, c) == Height(b, n - 1);
      assert ColumnHeight(b, c) == Height(b, n);
    } else {
      assert ColumnHeight(b, n - 1) == Height(b, n);
    }
  }

  /** A column with no block has height 0 and no holes. */
  lemma EmptyColumn(b: Board, c: int)
    requires 0 <= c < COLS
    requires forall r :: 0 <= r < ROWS ==> b[r][c] == 0
    ensures ColumnHeight(b, c) == 0 && ColumnHoles(b, c) == 0
  {
  }

  /** The empty board scores 0. */
  lemma {:induction false} EmptyBoardEvaluation(n: int)
    requires 0 <= n <= COLS
    ensures Height(EmptyBoard(), n) == 0 && Holes(EmptyBoard(), n) == 0
  {
    if n > 0 {
      EmptyBoardEvaluation(n - 1);
      EmptyColumn(EmptyBoard(), n - 1);
    }
  }

  /** A column whose topmost block is at row `t` has height ROWS - t. */
  lemma TopRowFirst(b: Board, c: int, r: int)
    requires 0 <= c < COLS && 0 <= r < ROWS && b[r][c] != 0
    requires forall rr :: 0 <= rr < r ==> b[rr][c] == 0
    ensures TopRow(b, c, 0) == r
  {
  }

  /** The inner loop of `evaluateBoard` over column `c`, top row first: a
      block marks the column as seen and may raise the height; an empty cell
      after a block is a hole. */
  method ScanColumn(b: Board, c: int, height0: int, holes0: int) returns (height: int, holes: int)
    requires 0 <= c < COLS && height0 >= 0
    ensures height == if ColumnHeight(b, c) > height0 then ColumnHeight(b, c) else height0
    ensures holes == holes0 + ColumnHoles(b, c)
  {
    height, holes := height0, holes0;
    var blockSeen := false;
    var r := 0;
    ghost var t := TopRow(b, c, 0);
    while r < ROWS
      invariant 0 <= r <= ROWS
      invariant blockSeen <==> t < r
      invariant height == if blockSeen && ROWS - t > height0 then ROWS - t else height0
      invariant holes == holes0 + (if blockSeen then EmptyCells(b, c, t, r) else 0)
    {
      if b[r][c] != 0 {
        if !blockSeen {
          TopRowFirst(b, c, r);
        }
        blockSeen := true;
        height := if height > ROWS - r then height else ROWS - r;
      } else if blockSeen {
        holes := holes + 1;
      }
      r := r + 1;
    }
  }

  /** `evaluateBoard` as the program runs it. */
  method EvaluateBoard(b: Board) returns (score: int)
    ensures score == Evaluation(b)
  {
    var holes := 0;
    var height := 0;
    var c := 0;
    while c < COLS
      invariant 0 <= c <= COLS
      invariant height == Height(b, c) && holes == Holes(b, c)
    {
      height, holes := ScanColumn(b, c, height, holes);
      c := c + 1;
    }
    score := height * 5 + holes * 10;
  }
}
