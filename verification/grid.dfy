/** The playfield: ROWS rows of COLS cell tags (0 for an empty cell, k + 1 for a
    cell where a piece of kind k was locked), the full-row rule, the result of
    clearing every full row, and the score table for a clear. */
module Grid {

  const COLS := 10
  const ROWS := 20

  type Row = s: seq<int> | |s| == COLS witness seq(COLS, _ => 0)
  type Board = b: seq<Row> | |b| == ROWS witness seq(ROWS, _ => EMPTY_ROW)

  const EMPTY_ROW: Row := seq(COLS, _ => 0)

  /** The board a session starts with: every cell empty. */
  function EmptyBoard(): (b: Board)
    ensures forall r, c :: 0 <= r < ROWS && 0 <= c < COLS ==> b[r][c] == 0
  {
    seq(ROWS, _ => EMPTY_ROW)
  }

  /** A row is full when none of its cells is empty. */
  predicate Full(row: Row)
  {
    forall c :: 0 <= c < COLS ==> row[c] != 0
  }

  /** The number of full rows among `rows`. */
  function CountFull(rows: seq<Row>): nat
  {
    if |rows| == 0 then 0
    else (if Full(rows[0]) then 1 else 0) + CountFull(rows[1..])
  }

  /** The rows that are not full, in their original order. */
  function Kept(rows: seq<Row>): (k: seq<Row>)
    ensures |k| + CountFull(rows) == |rows|
  {
    if |rows| == 0 then []
    else (if Full(rows[0]) then [] else [rows[0]]) + Kept(rows[1..])
  }

  function BlankRows(n: nat): (s: seq<Row>)
  {
    seq(n, _ => EMPTY_ROW)
  }

  /** The board once every full row is removed: the remaining rows keep their
      order and sit at the bottom, under one empty row per removed row. */
  function Cleared(b: Board): (r: Board)
  {
    BlankRows(CountFull(b)) + Kept(b)
  }

  const LINE_SCORES: seq<nat> := [0, 100, 300, 500, 800]

  /** Points for clearing `lines` rows at once; more than four score as four. */
  function LineScore(lines: nat): (s: nat)
    ensures s == 0 <==> lines == 0
    ensures lines >= 4 ==> s == LINE_SCORES[4]
  {
    LINE_SCORES[if lines < 4 then lines else 4]
  }

  /** Clearing more rows never scores less, and clearing rows together scores
      at least as much as clearing them in two separate goes. */
  lemma LineScoreRewards(a: nat, b: nat)
    ensures a <= b ==> LineScore(a) <= LineScore(b)
    ensures a + b <= 4 ==> LineScore(a) + LineScore(b) <= LineScore(a + b)
  {
  }

  // ----- occupied-cell counts -----

  /** The number of non-empty cells of a row. */
  function RowCount(s: seq<int>): nat
  {
    if |s| == 0 then 0 else (if s[0] != 0 then 1 else 0) + RowCount(s[1..])
  }

  /** The number of non-empty cells of a stack of rows. */
  function CellCount(rows: seq<Row>): nat
  {
    if |rows| == 0 then 0 else RowCount(rows[0]) + CellCount(rows[1..])
  }

  lemma {:induction false} RowCountNoZero(s: seq<int>)
    requires forall i :: 0 <= i < |s| ==> s[i] != 0
    ensures RowCount(s) == |s|
  {
    if |s| > 0 {
      RowCountNoZero(s[1..]);
    }
  }

  lemma {:induction false} RowCountAllZero(s: seq<int>)
    requires forall i :: 0 <= i < |s| ==> s[i] == 0
    ensures RowCount(s) == 0
  {
    if |s| > 0 {
      RowCountAllZero(s[1..]);
    }
  }

  lemma {:induction false} CellCountAppend(a: seq<Row>, b: seq<Row>)
    ensures CellCount(a + b) == CellCount(a) + CellCount(b)
  {
    if |a| > 0 {
      assert (a + b)[0] == a[0];
      assert (a + b)[1..] == a[1..] + b;
      CellCountAppend(a[1..], b);
    } else {
      assert a + b == b;
    }
  }

  lemma {:induction false} BlankRowsCount(n: nat)
    ensures CellCount(BlankRows(n)) == 0
    ensures CountFull(BlankRows(n)) == 0
    ensures Kept(BlankRows(n)) == BlankRows(n)
  {
    if n > 0 {
      RowCountAllZero(EMPTY_ROW);
      assert !Full(EMPTY_ROW) by { assert EMPTY_ROW[0] == 0; }
      assert BlankRows(n)[1..] == BlankRows(n - 1);
      BlankRowsCount(n - 1);
    }
  }

  /** Removing the full rows removes exactly COLS occupied cells per row. */
  lemma {:induction false} KeptCount(rows: seq<Row>)
    ensures CellCount(rows) == CellCount(Kept(rows)) + COLS * CountFull(rows)
  {
    if |rows| > 0 {
      KeptCount(rows[1..]);
      if Full(rows[0]) {
        RowCountNoZero(rows[0]);
        assert Kept(rows) == Kept(rows[1..]);
        assert CountFull(rows) == 1 + CountFull(rows[1..]);
      } else {
        assert Kept(rows) == [rows[0]] + Kept(rows[1..]);
        assert ([rows[0]] + Kept(rows[1..]))[1..] == Kept(rows[1..]);
      }
    }
  }

  /** The kept rows are rows of `rows`, and none of them is full. */
  lemma {:induction false} KeptRows(rows: seq<Row>)
    ensures forall i :: 0 <= i < |Kept(rows)| ==> !Full(Kept(rows)[i])
    ensures forall row :: row in Kept(rows) ==> row in rows
  {
    if |rows| > 0 {
      KeptRows(rows[1..]);
      assert forall row :: row in rows[1..] ==> row in rows;
    }
  }

  lemma {:induction false} KeptNoFull(rows: seq<Row>)
    requires forall i :: 0 <= i < |rows| ==> !Full(rows[i])
    ensures CountFull(rows) == 0
    ensures Kept(rows) == rows
  {
    if |rows| > 0 {
      KeptNoFull(rows[1..]);
      assert [rows[0]] + rows[1..] == rows;
    }
  }

  /** After a clear no row is full, and the first CountFull(b) rows are empty. */
  lemma ClearedShape(b: Board)
    ensures forall i :: 0 <= i < ROWS ==> !Full(Cleared(b)[i])
    ensures forall i :: 0 <= i < CountFull(b) ==> Cleared(b)[i] == EMPTY_ROW
    ensures Cleared(b)[CountFull(b)..] == Kept(b)
  {
    var n := CountFull(b);
    KeptRows(b);
    assert !Full(EMPTY_ROW) by { assert EMPTY_ROW[0] == 0; }
    forall i | 0 <= i < ROWS
      ensures !Full(Cleared(b)[i])
    {
      if i >= n {
        assert Cleared(b)[i] == Kept(b)[i - n];
      }
    }
  }

  /** Clearing lowers the number of occupied cells by COLS per cleared row. */
  lemma ClearedCount(b: Board)
    ensures CellCount(Cleared(b)) == CellCount(b) - COLS * CountFull(b)
  {
    CellCountAppend(BlankRows(CountFull(b)), Kept(b));
    BlankRowsCount(CountFull(b));
    KeptCount(b);
  }

  /** A second clear finds nothing to remove and changes nothing. */
  lemma ClearedIdempotent(b: Board)
    ensures CountFull(Cleared(b)) == 0
    ensures Cleared(Cleared(b)) == Cleared(b)
  {
    ClearedShape(b);
    KeptNoFull(Cleared(b));
    assert BlankRows(0) + Cleared(b) == Cleared(b);
  }

  // ----- the program's scans, as loops -----

  /** The per-row scan shared by both line counters: stop at the first empty cell. */
  method RowIsFull(row: Row) returns (full: bool)
    ensures full <==> Full(row)
  {
    full := true;
    var c := 0;
    while c < COLS
      invariant 0 <= c <= COLS
      invariant full
      invariant forall j :: 0 <= j < c ==> row[j] != 0
    {
      if row[c] == 0 {
        full := false;
        break;
      }
      c := c + 1;
    }
  }

  /** Counts the full rows, bottom row first, without changing the board. */
  method CheckClearLines(b: Board) returns (lines: nat)
    ensures lines == CountFull(b)
    ensures lines == ROWS - |Kept(b)|
  {
    lines := 0;
    var r := ROWS - 1;
    while r >= 0
      invariant -1 <= r < ROWS
      invariant lines == CountFull(b[r + 1..])
    {
      var full := RowIsFull(b[r]);
      assert b[r..][1..] == b[r + 1..];
      if full {
        lines := lines + 1;
      }
      r := r - 1;
    }
  }

  /** Drops row `r`: every row above it moves down one and row 0 becomes empty. */
  method PullDown(b: Board, r: int) returns (b': Board)
    requires 0 <= r < ROWS
    ensures b' == [EMPTY_ROW] + b[..r] + b[r + 1..]
  {
    b' := b;
    var rr := r;
    while rr > 0
      invariant 0 <= rr <= r
      invariant forall i :: 0 <= i < rr ==> b'[i] == b[i]
      invariant forall i :: rr < i <= r ==> b'[i] == b[i - 1]
      invariant forall i :: r < i < ROWS ==> b'[i] == b[i]
    {
      b' := b'[rr := b'[rr - 1]];
      rr := rr - 1;
    }
    b' := b'[0 := EMPTY_ROW];
    var expected := [EMPTY_ROW] + b[..r] + b[r + 1..];
    forall i | 0 <= i < ROWS
      ensures b'[i] == expected[i]
    {
      if 0 < i <= r {
        assert expected[i] == b[i - 1];
      } else if i > r {
        assert expected[i] == b[i];
      }
    }
  }

  // ----- the bottom-up clear, one row at a time -----

  /** The state of the bottom-up clear of `B` once its rows from `m` on have
      been handled: `lines` of them were full and are gone, the others sit at
      the bottom, the unhandled rows above them, and blank rows on top. */
  predicate ClearState(B: Board, b: Board, lines: nat, m: int)
  {
    0 <= m <= ROWS && b == BlankRows(lines) + B[..m] + Kept(B[m..]) && lines == CountFull(B[m..])
  }

  /** The row being examined: the lowest unhandled row, or a blank one. */
  lemma ClearStateRow(B: Board, b: Board, lines: nat, m: int, r: int)
    requires ClearState(B, b, lines, m)
    requires (0 < m && r + 1 == lines + m) || (m == 0 && 0 <= r < lines)
    ensures b[r] == if m > 0 then B[m - 1] else EMPTY_ROW
  {
    if m > 0 {
      assert b[r] == (BlankRows(lines) + B[..m])[r];
    }
  }

  /** Handling row `m - 1` of `B`: it adds one to the full count when full, and
      otherwise heads the kept rows. */
  lemma HandleRow(B: Board, m: int)
    requires 0 < m <= ROWS
    ensures CountFull(B[m - 1..]) == (if Full(B[m - 1]) then 1 else 0) + CountFull(B[m..])
    ensures Kept(B[m - 1..]) == (if Full(B[m - 1]) then [] else [B[m - 1]]) + Kept(B[m..])
  {
    assert B[m - 1..][1..] == B[m..];
  }

  /** Pulling down the row just after `pre + mid` in `pre + mid + [x] + c`:
      an empty row arrives on top and `x` is gone. */
  lemma PullDownSplit(pre: seq<Row>, mid: seq<Row>, x: Row, c: seq<Row>)
    ensures var b := pre + mid + [x] + c;
            [EMPTY_ROW] + b[..|pre| + |mid|] + b[|pre| + |mid| + 1..] == [EMPTY_ROW] + pre + mid + c
  {
    var b := pre + mid + [x] + c;
    assert b[..|pre| + |mid|] == pre + mid;
    assert b[|pre| + |mid| + 1..] == c;
  }

  /** Pulling down a full examined row hands it over as one more cleared line. */
  lemma ClearStateFull(B: Board, b: Board, lines: nat, m: int, r: int)
    requires ClearState(B, b, lines, m)
    requires 0 < m && r + 1 == lines + m && Full(B[m - 1])
    ensures ClearState(B, [EMPTY_ROW] + b[..r] + b[r + 1..], lines + 1, m - 1)
  {
    HandleRow(B, m);
    assert B[..m] == B[..m - 1] + [B[m - 1]];
    PullDownSplit(BlankRows(lines), B[..m - 1], B[m - 1], Kept(B[m..]));
    BlankRowsCons(lines);
  }

  lemma BlankRowsCons(n: nat)
    ensures [EMPTY_ROW] + BlankRows(n) == BlankRows(n + 1)
  {
  }

  /** A non-full examined row stays where it is and is handled. */
  lemma ClearStateKeep(B: Board, b: Board, lines: nat, m: int)
    requires ClearState(B, b, lines, m)
    requires 0 < m && !Full(B[m - 1])
    ensures ClearState(B, b, lines, m - 1)
  {
    HandleRow(B, m);
    assert B[..m] == B[..m - 1] + [B[m - 1]];
  }


  /** The loop state of the bottom-up clear: row `r` is examined next; while
      unhandled rows remain it sits just above the `lines + m` rows below it,
      and once they are all handled only blank rows are left to examine. */
  predicate Scanning(B: Board, b: Board, lines: nat, m: int, r: int)
  {
    && -1 <= r < ROWS
    && ClearState(B, b, lines, m)
    && ((0 < m && r + 1 == lines + m) || (m == 0 && r + 1 <= lines))
  }

  /** The scan starts at the bottom row with nothing handled. */
  lemma ScanningStart(B: Board)
    ensures Scanning(B, B, 0, ROWS, ROWS - 1)
  {
    assert B[ROWS..] == [] && B[..ROWS] == B;
    assert BlankRows(0) == [];
  }

  /** Once the scan has passed the top row every row is handled and the board
      is the cleared board. */
  lemma ScanningDone(B: Board, b: Board, lines: nat, m: int, r: int)
    requires Scanning(B, b, lines, m, r) && r < 0
    ensures b == Cleared(B) && lines == CountFull(B)
  {
    assert m == 0;
    assert B[0..] == B;
  }

  /** One pass of the loop of `clearLines`: a full row is pulled down and the
      same row index examined again; any other row is passed over. */
  method ClearStep(ghost B: Board, b: Board, lines: nat, ghost m: int, r: int)
    returns (b': Board, lines': nat, ghost m': int, r': int)
    requires Scanning(B, b, lines, m, r) && r >= 0
    ensures Scanning(B, b', lines', m', r')
    ensures 0 <= m' && r' + m' < r + m
    ensures Full(b[r]) ==> lines' == lines + 1 && r' == r
    ensures !Full(b[r]) ==> b' == b && lines' == lines && r' == r - 1
  {
    ClearStateRow(B, b, lines, m, r);
    assert !Full(EMPTY_ROW) by { assert EMPTY_ROW[0] == 0; }
    var full := RowIsFull(b[r]);
    if full {
      ClearStateFull(B, b, lines, m, r);
      lines' := lines + 1;
      b' := PullDown(b, r);
      m', r' := m - 1, r;
    } else {
      b', lines', r' := b, lines, r - 1;
      if m > 0 {
        ClearStateKeep(B, b, lines, m);
        m' := m - 1;
      } else {
        m' := m;
      }
    }
  }
}
