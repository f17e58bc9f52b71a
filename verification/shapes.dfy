/** The shape catalog: seven tetromino kinds (I, J, L, O, S, T, Z), each with
    four rotation states. A rotation state is a 4x4 occupancy grid flattened
    row by row into a 16-character mask; '.' and ' ' mark an empty cell and
    every other character a filled one. */
module Shapes {

  const KINDS := 7
  const ROTATIONS := 4
  /** Side of the square mini-grid a mask describes. */
  const MASK_SIDE := 4
  const MASK_SIZE := 16

  type Kind = k: int | 0 <= k < KINDS
  type Rotation = r: int | 0 <= r < ROTATIONS

  /** The catalog: for each kind, its four rotation states, each mask being its
      four rows of four characters written one after the other. */
  const SHAPES: seq<seq<string>> := [
    [ // I
      "....####........",
      "..#...#...#...#.",
      "........####....",
      ".#...#...#...#.."],
    [ // J
      "#.. ### ........",
      ".##..#...#......",
      "....###...#.....",
      ".#...#..##......"],
    [ // L
      "..#.###.........",
      ".#...#...##.....",
      "....###.#.......",
      "##...#...#......"],
    [ // O
      ".##..##.........",
      ".##..##.........",
      ".##..##.........",
      ".##..##........."],
    [ // S
      ".##.##..........",
      ".#...##...#.....",
      ".....##.##......",
      "#...##...#......"],
    [ // T
      ".#..###.........",
      ".#...##..#......",
      "....###..#......",
      ".#..##...#......"],
    [ // Z
      "##...##.........",
      "..#..##..#......",
      "....##...##.....",
      ".#..##..#......."]
  ]

  /** The catalog entry for kind `k` in rotation state `r`. */
  function Mask(k: Kind, r: Rotation): (m: string)
    ensures |m| == MASK_SIZE
  {
    SHAPES[k][r]
  }

  /** Whether position `idx` (row-major) of a mask is occupied. */
  predicate CellFilled(m: string, idx: int)
    requires 0 <= idx < |m|
  {
    m[idx] != '.' && m[idx] != ' '
  }

  /** The mask position of row `row`, column `col` (MASK_SIDE * row + col), and
      back: the row and the column of a mask position. */
  function MaskIndex(row: int, col: int): int
  {
    4 * row + col
  }

  function MaskRow(i: int): int
  {
    i / 4
  }

  function MaskCol(i: int): int
  {
    i % 4
  }

  /** The occupied positions of `m` from position `i` on, in row-major order. */
  function FilledIndices(m: string, i: int): (ix: seq<int>)
    requires |m| == MASK_SIZE && 0 <= i <= MASK_SIZE
    decreases MASK_SIZE - i
  {
    if i == MASK_SIZE then []
    else (if CellFilled(m, i) then [i] else []) + FilledIndices(m, i + 1)
  }

  /** The occupied positions of every catalog entry, read off the masks by hand:
      an independent statement of the catalog the masks must agree with. */
  function Footprint(k: Kind, r: Rotation): seq<int>
  {
    match k
    case 0 =>
      (match r
       case 0 => [4, 5, 6, 7]
       case 1 => [2, 6, 10, 14]
       case 2 => [8, 9, 10, 11]
       case 3 => [1, 5, 9, 13])
    case 1 =>
      (match r
       case 0 => [0, 4, 5, 6]
       case 1 => [1, 2, 5, 9]
       case 2 => [4, 5, 6, 10]
       case 3 => [1, 5, 8, 9])
    case 2 =>
      (match r
       case 0 => [2, 4, 5, 6]
       case 1 => [1, 5, 9, 10]
       case 2 => [4, 5, 6, 8]
       case 3 => [0, 1, 5, 9])
    case 3 =>
      (match r
       case 0 => [1, 2, 5, 6]
       case 1 => [1, 2, 5, 6]
       case 2 => [1, 2, 5, 6]
       case 3 => [1, 2, 5, 6])
    case 4 =>
      (match r
       case 0 => [1, 2, 4, 5]
       case 1 => [1, 5, 6, 10]
       case 2 => [5, 6, 8, 9]
       case 3 => [0, 4, 5, 9])
    case 5 =>
      (match r
       case 0 => [1, 4, 5, 6]
       case 1 => [1, 5, 6, 9]
       case 2 => [4, 5, 6, 9]
       case 3 => [1, 4, 5, 9])
    case 6 =>
      (match r
       case 0 => [0, 1, 5, 6]
       case 1 => [2, 5, 6, 9]
       case 2 => [4, 5, 9, 10]
       case 3 => [1, 4, 5, 8])
  }

  predicate Increasing(o: seq<int>)
  {
    forall a, b :: 0 <= a < b < |o| ==> o[a] < o[b]
  }

  /** Every position `FilledIndices` lists is an occupied one from `i` on. */
  lemma {:induction false} FilledIndicesSound(m: string, i: int)
    requires |m| == MASK_SIZE && 0 <= i <= MASK_SIZE
    ensures forall a :: 0 <= a < |FilledIndices(m, i)| ==>
              i <= FilledIndices(m, i)[a] < MASK_SIZE && CellFilled(m, FilledIndices(m, i)[a])
    decreases MASK_SIZE - i
  {
    if i < MASK_SIZE {
      FilledIndicesSound(m, i + 1);
    }
  }

  /** `FilledIndices` lists the positions in row-major order. */
  lemma {:induction false} FilledIndicesIncreasing(m: string, i: int)
    requires |m| == MASK_SIZE && 0 <= i <= MASK_SIZE
    ensures Increasing(FilledIndices(m, i))
    decreases MASK_SIZE - i
  {
    if i < MASK_SIZE {
      FilledIndicesIncreasing(m, i + 1);
      FilledIndicesSound(m, i + 1);
      var rest := FilledIndices(m, i + 1);
      if CellFilled(m, i) {
        var ix := [i] + rest;
        assert FilledIndices(m, i) == ix;
        forall a, b | 0 <= a < b < |ix|
          ensures ix[a] < ix[b]
        {
          assert ix[b] == rest[b - 1];
          if a > 0 {
            assert ix[a] == rest[a - 1];
          }
        }
      }
    }
  }

  /** Every occupied position from `i` on is listed by `FilledIndices`. */
  lemma {:induction false} FilledIndicesComplete(m: string, i: int)
    requires |m| == MASK_SIZE && 0 <= i <= MASK_SIZE
    ensures forall j :: i <= j < MASK_SIZE && CellFilled(m, j) ==> j in FilledIndices(m, i)
    decreases MASK_SIZE - i
  {
    if i < MASK_SIZE {
      FilledIndicesComplete(m, i + 1);
    }
  }

  /** A strictly increasing list of exactly the occupied positions from `i` on
      is the one `FilledIndices` computes. */
  lemma {:induction false} FilledIndicesUnique(m: string, i: int, o: seq<int>)
    requires |m| == MASK_SIZE && 0 <= i <= MASK_SIZE
    requires Increasing(o)
    requires forall a :: 0 <= a < |o| ==> i <= o[a] < MASK_SIZE
    requires forall j :: i <= j < MASK_SIZE ==> (CellFilled(m, j) <==> j in o)
    ensures FilledIndices(m, i) == o
    decreases MASK_SIZE - i
  {
    if i == MASK_SIZE {
    } else if CellFilled(m, i) {
      assert o[0] == i;
      FilledIndicesUnique(m, i + 1, o[1..]);
    } else {
      FilledIndicesUnique(m, i + 1, o);
    }
  }

  lemma IFootprint(r: Rotation)
    ensures FilledIndices(Mask(0, r), 0) == Footprint(0, r)
  {
    match r
    case 0 => FilledIndicesUnique(Mask(0, 0), 0, Footprint(0, 0));
    case 1 => FilledIndicesUnique(Mask(0, 1), 0, Footprint(0, 1));
    case 2 => FilledIndicesUnique(Mask(0, 2), 0, Footprint(0, 2));
    case 3 => FilledIndicesUnique(Mask(0, 3), 0, Footprint(0, 3));
  }
  lemma JFootprint(r: Rotation)
    ensures FilledIndices(Mask(1, r), 0) == Footprint(1, r)
  {
    match r
    case 0 => FilledIndicesUnique(Mask(1, 0), 0, Footprint(1, 0));
    case 1 => FilledIndicesUnique(Mask(1, 1), 0, Footprint(1, 1));
    case 2 => FilledIndicesUnique(Mask(1, 2), 0, Footprint(1, 2));
    case 3 => FilledIndicesUnique(Mask(1, 3), 0, Footprint(1, 3));
  }
  lemma LFootprint(r: Rotation)
    ensures FilledIndices(Mask(2, r), 0) == Footprint(2, r)
  {
    match r
    case 0 => FilledIndicesUnique(Mask(2, 0), 0, Footprint(2, 0));
    case 1 => FilledIndicesUnique(Mask(2, 1), 0, Footprint(2, 1));
    case 2 => FilledIndicesUnique(Mask(2, 2), 0, Footprint(2, 2));
    case 3 => FilledIndicesUnique(Mask(2, 3), 0, Footprint(2, 3));
  }
  lemma OFootprint(r: Rotation)
    ensures FilledIndices(Mask(3, r), 0) == Footprint(3, r)
  {
    match r
    case 0 => FilledIndicesUnique(Mask(3, 0), 0, Footprint(3, 0));
    case 1 => FilledIndicesUnique(Mask(3, 1), 0, Footprint(3, 1));
    case 2 => FilledIndicesUnique(Mask(3, 2), 0, Footprint(3, 2));
    case 3 => FilledIndicesUnique(Mask(3, 3), 0, Footprint(3, 3));
  }
  lemma SFootprint(r: Rotation)
    ensures FilledIndices(Mask(4, r), 0) == Footprint(4, r)
  {
    match r
    case 0 => FilledIndicesUnique(Mask(4, 0), 0, Footprint(4, 0));
    case 1 => FilledIndicesUnique(Mask(4, 1), 0, Footprint(4, 1));
    case 2 => FilledIndicesUnique(Mask(4, 2), 0, Footprint(4, 2));
    case 3 => FilledIndicesUnique(Mask(4, 3), 0, Footprint(4, 3));
  }
  lemma TFootprint(r: Rotation)
    ensures FilledIndices(Mask(5, r), 0) == Footprint(5, r)
  {
    match r
    case 0 => FilledIndicesUnique(Mask(5, 0), 0, Footprint(5, 0));
    case 1 => FilledIndicesUnique(Mask(5, 1), 0, Footprint(5, 1));
    case 2 => FilledIndicesUnique(Mask(5, 2), 0, Footprint(5, 2));
    case 3 => FilledIndicesUnique(Mask(5, 3), 0, Footprint(5, 3));
  }
  lemma ZFootprint(r: Rotation)
    ensures FilledIndices(Mask(6, r), 0) == Footprint(6, r)
  {
    match r
    case 0 => FilledIndicesUnique(Mask(6, 0), 0, Footprint(6, 0));
    case 1 => FilledIndicesUnique(Mask(6, 1), 0, Footprint(6, 1));
    case 2 => FilledIndicesUnique(Mask(6, 2), 0, Footprint(6, 2));
    case 3 => FilledIndicesUnique(Mask(6, 3), 0, Footprint(6, 3));
  }

  /** Every mask of the catalog occupies exactly the positions of its footprint. */
  lemma CatalogFootprint(k: Kind, r: Rotation)
    ensures FilledIndices(Mask(k, r), 0) == Footprint(k, r)
  {
    match k
    case 0 => IFootprint(r);
    case 1 => JFootprint(r);
    case 2 => LFootprint(r);
    case 3 => OFootprint(r);
    case 4 => SFootprint(r);
    case 5 => TFootprint(r);
    case 6 => ZFootprint(r);
  }

  /** Every footprint lists four positions, the first of them in one of the
      three leftmost mask columns. */
  lemma FootprintShape(k: Kind, r: Rotation)
    ensures |Footprint(k, r)| == 4 && Footprint(k, r)[0] % MASK_SIDE <= 2
    ensures Increasing(Footprint(k, r))
    ensures forall a :: 0 <= a < 4 ==> 0 <= Footprint(k, r)[a] < MASK_SIZE
  {
  }

  /** The tetromino property: every rotation state of every kind occupies exactly
      four cells, and one of them lies in the three leftmost mask columns. */
  lemma Tetromino(k: Kind, r: Rotation)
    ensures |FilledIndices(Mask(k, r), 0)| == 4
    ensures FilledIndices(Mask(k, r), 0)[0] % MASK_SIDE <= 2
  {
    CatalogFootprint(k, r);
    FootprintShape(k, r);
  }
}
