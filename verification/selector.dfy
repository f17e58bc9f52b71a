/** The adversarial piece selector: every kind, rotation state and column is
    hard-dropped onto the board, locked into a copy, and scored by the number of
    rows it would leave full; the kind of the first best-scoring placement is
    handed out next, at the spawn position. */
module Selector {
  import opened Shapes
  import opened Grid
  import opened Pieces
  import opened Placement
  import opened Games

  /** The spawn position of every new piece: rotation 0, anchor column
      COLS / 2 - 2, anchor row -2 (slightly above the top). */
  function Spawn(k: Kind): (p: Piece)
    ensures p.kind == k && p.rotation == 0 && p.x == COLS / 2 - 2 && p.y == -2
    ensures forall j :: 0 <= j < |CellsFor(p)| ==> 3 <= CellsFor(p)[j].x <= 6 && -2 <= CellsFor(p)[j].y <= 1
  {
    CellsForShape(Piece(k, 0, COLS / 2 - 2, -2));
    Piece(k, 0, COLS / 2 - 2, -2)
  }

  /** The search scans the anchor columns -2 .. COLS - 1 for every kind and
      rotation state, kinds outermost, columns innermost. */
  const X_FIRST := -2
  const X_COUNT := 12
  const PER_KIND := 48
  const CANDIDATES := 336

  /** The row every candidate starts its drop from. */
  const DROP_START := -2

  /** The `i`-th placement the search tries, before its drop. */
  function Candidate(i: int): (p: Piece)
    requires 0 <= i < CANDIDATES
    ensures i == 48 * p.kind + 12 * p.rotation + (p.x - X_FIRST)
    ensures X_FIRST <= p.x < COLS && p.y == DROP_START
  {
    Piece(i / 48, (i % 48) / 12, i % 12 + X_FIRST, DROP_START)
  }

  /** The search order: kind `t`, rotation `rot`, column `x` is candidate
      48 t + 12 rot + (x + 2). */
  lemma CandidateIndex(t: Kind, rot: Rotation, x: int)
    requires X_FIRST <= x < COLS
    ensures 0 <= 48 * t + 12 * rot + (x - X_FIRST) < CANDIDATES
    ensures Candidate(48 * t + 12 * rot + (x - X_FIRST)) == Piece(t, rot, x, DROP_START)
  {
    var i := 48 * t + 12 * rot + (x - X_FIRST);
    assert i / 48 == t && i % 48 == 12 * rot + (x - X_FIRST);
    assert (i % 48) / 12 == rot && i % 12 == x - X_FIRST;
  }

  /** The first position at or below `p`, in the same column and rotation
      state, where the piece no longer fits: the `while (canPlace) y++` loop. */
  function Fall(b: Board, p: Piece): (q: Piece)
    ensures q.kind == p.kind && q.rotation == p.rotation && q.x == p.x && q.y >= p.y
    ensures !CanPlace(b, q)
    ensures forall y :: p.y <= y < q.y ==> CanPlace(b, p.(y := y))
    decreases ROWS - p.y
  {
    if !CanPlace(b, p) then p
    else
      PlaceableAnchor(b, p);
      Fall(b, p.(y := p.y + 1))
  }

  /** The hard drop of the search: fall, then step back one row. When the
      starting row itself does not fit, this is one row above it. */
  function Drop(b: Board, p: Piece): (d: Piece)
    ensures d.kind == p.kind && d.rotation == p.rotation && d.x == p.x && d.y >= p.y - 1
    ensures !CanPlace(b, d.(y := d.y + 1))
  {
    var q := Fall(b, p);
    q.(y := q.y - 1)
  }

  /** A dropped piece that fits rests on the stack or the floor: it fits, and one
      row lower it does not. */
  lemma DropRests(b: Board, p: Piece)
    requires CanPlace(b, p)
    ensures CanPlace(b, Drop(b, p)) && !CanPlace(b, Move(Drop(b, p), 0, 1))
  {
    var q := Fall(b, p);
    assert q.y > p.y;
    assert Drop(b, p) == p.(y := q.y - 1);
  }

  /** When the starting row itself does not fit, the drop steps back above it:
      a candidate blocked at row -2 is considered at row -3. */
  lemma DropBlocked(b: Board, p: Piece)
    requires !CanPlace(b, p)
    ensures Drop(b, p) == p.(y := p.y - 1)
  {
  }

  /** A vertical I piece whose start at row -2 is blocked by a block in row 1
      fits one row higher, at row -3, and is scored there. */
  lemma DropAboveStart()
    ensures var b := EmptyBoard()[1 := EMPTY_ROW[2 := 1]];
            var p := Piece(0, 1, 0, DROP_START);
            !CanPlace(b, p) && Drop(b, p) == p.(y := -3) && CanPlace(b, Drop(b, p))
  {
    var b := EmptyBoard()[1 := EMPTY_ROW[2 := 1]];
    var p := Piece(0, 1, 0, DROP_START);
    assert CellsFor(p)[3] == Cell(2, 1);
    assert !CanPlace(b, p);
    DropBlocked(b, p);
    assert CellsFor(p.(y := -3)) == [Cell(2, -3), Cell(2, -2), Cell(2, -1), Cell(2, 0)];
  }

  /** Whether candidate `i` comes to rest at a position where it fits. */
  predicate Valid(g: Game, i: int)
    requires 0 <= i < CANDIDATES
  {
    CanPlace(g.board, Drop(g.board, Candidate(i)))
  }

  /** The score of placement `d`: the rows full once it is locked into a copy
      of the board. */
  function Value(g: Game, d: Piece): (v: nat)
    requires CanPlace(g.board, d)
    ensures v <= ROWS
  {
    PlaceableIsLockable(g.board, d);
    var board := LockPiece(g.(cur := d)).board;
    CountFullBound(board);
    CountFull(board)
  }

  lemma CountFullBound(b: Board)
    ensures CountFull(b) <= ROWS
  {
    assert |Kept(b)| + CountFull(b) == ROWS;
  }

  /** What candidate `i` reports to the search: its score when it is valid, and
      -1 when it is skipped. A skipped candidate never replaces the running
      choice, whose score starts at -1 and only grows. */
  function Outcome(g: Game, i: int): (v: int)
    requires 0 <= i < CANDIDATES
    ensures v >= -1 && (v == -1 <==> !Valid(g, i))
  {
    if Valid(g, i) then Value(g, Drop(g.board, Candidate(i))) else -1
  }

  /** The best score seen so far and the placement that earned it. */
  datatype Choice = Choice(score: int, piece: Piece)

  /** The choice the search starts from: score -1 and the default piece. */
  const NO_CHOICE := Choice(-1, Piece(0, 0, 0, 0))

  /** The running choice after the first `n` of the reported scores `s` (with
      resting positions `ds`): a candidate replaces it only by reporting a
      strictly greater score. */
  function Running(s: seq<int>, ds: seq<Piece>, n: nat): Choice
    requires n <= |s| == |ds|
  {
    if n == 0 then NO_CHOICE
    else
      var prev := Running(s, ds, n - 1);
      if s[n - 1] > prev.score then Choice(s[n - 1], ds[n - 1]) else prev
  }

  /** The running choice stays the start while every score so far is -1;
      otherwise it is the score and position of a candidate that reports at
      least as much as every candidate so far and strictly more than every
      earlier one. */
  lemma {:induction false} RunningSpec(s: seq<int>, ds: seq<Piece>, n: nat)
    requires n <= |s| == |ds|
    requires forall j :: 0 <= j < |s| ==> s[j] >= -1
    ensures (forall j :: 0 <= j < n ==> s[j] == -1) ==> Running(s, ds, n) == NO_CHOICE
    ensures (exists j :: 0 <= j < n && s[j] != -1) ==>
              exists k :: 0 <= k < n && s[k] != -1 && Running(s, ds, n) == Choice(s[k], ds[k]) &&
                forall j :: 0 <= j < k ==> s[j] < s[k]
    ensures forall j :: 0 <= j < n ==> s[j] <= Running(s, ds, n).score
  {
    if n > 0 {
      RunningSpec(s, ds, n - 1);
    }
  }

  /** What every candidate reports, in search order. */
  function Outcomes(g: Game): seq<int>
  {
    seq(CANDIDATES, i requires 0 <= i < CANDIDATES => Outcome(g, i))
  }

  /** Where every candidate comes to rest, in search order. */
  function Drops(g: Game): seq<Piece>
  {
    seq(CANDIDATES, i requires 0 <= i < CANDIDATES => Drop(g.board, Candidate(i)))
  }

  /** Entry `i` of the reports is candidate `i`'s. */
  lemma ReportAt(g: Game, i: int)
    requires 0 <= i < CANDIDATES
    ensures Outcomes(g)[i] == Outcome(g, i) && Drops(g)[i] == Drop(g.board, Candidate(i))
  {
  }

  /** The search's running choice after the first `n` candidates. */
  function BestUpTo(g: Game, n: nat): Choice
    requires n <= CANDIDATES
  {
    Running(Outcomes(g), Drops(g), n)
  }

  /** `s` and `ds` are what the candidates of `g` report and where they rest. */
  predicate Reports(g: Game, s: seq<int>, ds: seq<Piece>)
  {
    && |s| == CANDIDATES && |ds| == CANDIDATES
    && forall i {:trigger Outcome(g, i)} :: 0 <= i < CANDIDATES ==>
         s[i] == Outcome(g, i) && ds[i] == Drop(g.board, Candidate(i))
  }

  /** `worstPiece`: the kind of the best-scoring placement, at the spawn
      position. */
  function WorstPiece(g: Game): (p: Piece)
    ensures p == Spawn(p.kind)
  {
    Spawn(BestUpTo(g, CANDIDATES).piece.kind)
  }

  /** Every reported score is -1 or a row count. */
  lemma OutcomesBounded(g: Game)
    ensures forall j :: 0 <= j < CANDIDATES ==> Outcomes(g)[j] >= -1
  {
  }

  /** With no placement that fits anywhere, the selector hands out kind 0. */
  lemma WorstPieceNoneFits(g: Game)
    requires forall i :: 0 <= i < CANDIDATES ==> !Valid(g, i)
    ensures WorstPiece(g) == Spawn(0)
  {
    var s := Outcomes(g);
    OutcomesBounded(g);
    assert forall j :: 0 <= j < CANDIDATES ==> s[j] == -1;
    RunningSpec(s, Drops(g), CANDIDATES);
  }

  /** Candidate `i` is valid, scores at least as much as every candidate and
      strictly more than every earlier one. */
  predicate FirstBest(g: Game, i: int)
    requires 0 <= i < CANDIDATES
  {
    && Valid(g, i)
    && (forall j :: 0 <= j < CANDIDATES ==> Outcome(g, j) <= Outcome(g, i))
    && (forall j :: 0 <= j < i ==> Outcome(g, j) < Outcome(g, i))
  }

  /** The order of the reports is the order of the outcomes. */
  lemma ReportsOrder(g: Game, k: int)
    requires 0 <= k < CANDIDATES && Outcomes(g)[k] != -1
    requires forall j :: 0 <= j < CANDIDATES ==> Outcomes(g)[j] <= Outcomes(g)[k]
    requires forall j :: 0 <= j < k ==> Outcomes(g)[j] < Outcomes(g)[k]
    ensures FirstBest(g, k)
  {
    ReportAt(g, k);
    forall j | 0 <= j < CANDIDATES
      ensures Outcome(g, j) <= Outcome(g, k)
    {
      ReportAt(g, j);
    }
    forall j | 0 <= j < k
      ensures Outcome(g, j) < Outcome(g, k)
    {
      ReportAt(g, j);
    }
  }

  /** Otherwise the kind handed out is that of the first best-scoring valid
      placement. */
  lemma WorstPieceArgmax(g: Game)
    requires exists i :: 0 <= i < CANDIDATES && Valid(g, i)
    ensures exists i :: 0 <= i < CANDIDATES && FirstBest(g, i) && WorstPiece(g).kind == Candidate(i).kind
  {
    var s, ds := Outcomes(g), Drops(g);
    OutcomesBounded(g);
    var i0 :| 0 <= i0 < CANDIDATES && Valid(g, i0);
    ReportAt(g, i0);
    RunningSpec(s, ds, CANDIDATES);
    var k :| 0 <= k < CANDIDATES && s[k] != -1 && Running(s, ds, CANDIDATES) == Choice(s[k], ds[k]) &&
      forall j :: 0 <= j < k ==> s[j] < s[k];
    ReportsOrder(g, k);
    ReportAt(g, k);
  }

  /** The body of the innermost loop of `worstPiece` for kind `t`, rotation
      `rot`, column `x`: drop the piece from row -2 until it no longer fits and
      step back one row; when it fits there, lock it into a copy of the game and
      count the full rows. */
  method DropAndScore(g: Game, t: Kind, rot: Rotation, x: int) returns (candidate: Piece, outcome: int)
    requires X_FIRST <= x < COLS
    ensures 0 <= 48 * t + 12 * rot + (x - X_FIRST) < CANDIDATES
    ensures candidate == Drop(g.board, Candidate(48 * t + 12 * rot + (x - X_FIRST)))
    ensures outcome == Outcome(g, 48 * t + 12 * rot + (x - X_FIRST))
  {
    CandidateIndex(t, rot, x);
    var start := Piece(t, rot, x, DROP_START);
    candidate := start;
    while CanPlace(g.board, candidate)
      invariant candidate == start.(y := candidate.y) && candidate.y >= DROP_START
      invariant Fall(g.board, candidate) == Fall(g.board, start)
      decreases ROWS - candidate.y
    {
      PlaceableAnchor(g.board, candidate);
      candidate := candidate.(y := candidate.y + 1);
    }
    candidate := candidate.(y := candidate.y - 1);
    if !CanPlace(g.board, candidate) {
      outcome := -1;
    } else {
      PlaceableIsLockable(g.board, candidate);
      var test := LockPiece(g.(cur := candidate));
      outcome := CheckClearLines(test.board);
    }
  }

  /** DropAndScore, read against the reports of every candidate. */
  method Report(g: Game, t: Kind, rot: Rotation, x: int, ghost s: seq<int>, ghost ds: seq<Piece>)
    returns (candidate: Piece, outcome: int)
    requires Reports(g, s, ds)
    requires X_FIRST <= x < COLS
    ensures 0 <= 48 * t + 12 * rot + (x - X_FIRST) < CANDIDATES
    ensures outcome == s[48 * t + 12 * rot + (x - X_FIRST)] && candidate == ds[48 * t + 12 * rot + (x - X_FIRST)]
  {
    candidate, outcome := DropAndScore(g, t, rot, x);
  }

  /** One pass of the innermost loop of `worstPiece`: candidate `n`, which is
      kind `t`, rotation `rot`, column `x`, replaces the running choice when it
      scores strictly more. */
  method Consider(g: Game, t: Kind, rot: Rotation, x: int, ghost n: nat, ghost s: seq<int>, ghost ds: seq<Piece>,
                  worstScore: int, worst: Piece)
    returns (worstScore': int, worst': Piece)
    requires Reports(g, s, ds)
    requires X_FIRST <= x < COLS && n == 48 * t + 12 * rot + (x - X_FIRST)
    requires Choice(worstScore, worst) == Running(s, ds, n)
    ensures n < CANDIDATES && Choice(worstScore', worst') == Running(s, ds, n + 1)
  {
    var candidate, score := Report(g, t, rot, x, s, ds);
    if score > worstScore {
      worstScore', worst' := score, candidate;
    } else {
      worstScore', worst' := worstScore, worst;
    }
  }

  /** The nested loops of `worstPiece` over kinds, rotation states and columns,
      keeping the first strictly better candidate. */
  method Search(g: Game, ghost s: seq<int>, ghost ds: seq<Piece>) returns (worst: Piece)
    requires Reports(g, s, ds)
    ensures worst == Running(s, ds, CANDIDATES).piece
  {
    worst := Piece(0, 0, 0, 0);
    var worstScore: int := -1;
    ghost var n := 0;
    var t := 0;
    while t < KINDS
      invariant 0 <= t <= KINDS && n == 48 * t
      invariant Choice(worstScore, worst) == Running(s, ds, n)
    {
      var rot := 0;
      while rot < ROTATIONS
        invariant 0 <= rot <= ROTATIONS && n == 48 * t + 12 * rot
        invariant Choice(worstScore, worst) == Running(s, ds, n)
      {
        var x := X_FIRST;
        while x < COLS
          invariant X_FIRST <= x <= COLS && n == 48 * t + 12 * rot + (x - X_FIRST)
          invariant Choice(worstScore, worst) == Running(s, ds, n)
        {
          worstScore, worst := Consider(g, t, rot, x, n, s, ds, worstScore, worst);
          n := n + 1;
          x := x + 1;
        }
        rot := rot + 1;
      }
      t := t + 1;
    }
  }

  /** `worstPiece` as the program runs it. */
  method WorstPieceSearch(g: Game) returns (p: Piece)
    ensures p == WorstPiece(g)
  {
    ghost var s, ds := Outcomes(g), Drops(g);
    assert Reports(g, s, ds);
    var worst := Search(g, s, ds);
    p := Spawn(worst.kind);
  }
}
