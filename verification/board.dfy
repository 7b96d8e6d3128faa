/** The n-by-n sliding-puzzle board: an immutable grid of labels where 0 is
    the blank, with the two heuristics, the goal test, structural equality,
    the successor boards and the twin board. */
module Boards {
  import opened Wrappers

  /** Rows of labelled cells; `g[i][j]` is the tile at row i, column j. */
  type Grid = seq<seq<int>>

  predicate IsSquare(g: Grid) {
    forall i :: 0 <= i < |g| ==> |g[i]| == |g|
  }

  /** Every label lies in 0..n*n-1 and no two cells share a label. Over the
      n*n cells of a square grid this says the labels are a permutation of
      0..n*n-1. */
  predicate IsPermutation(g: Grid)
    requires IsSquare(g)
  {
    && (forall i, j :: 0 <= i < |g| && 0 <= j < |g| ==> 0 <= g[i][j] < |g| * |g|)
    && (forall i, j, k, l ::
          0 <= i < |g| && 0 <= j < |g| && 0 <= k < |g| && 0 <= l < |g| && Cell(g, i, j) == Cell(g, k, l)
          ==> i == k && j == l)
  }

  /** The label at row i, column j. Distinctness is stated over `Cell` so
      that it is applied only where a proof names two cells this way, and
      not to every pair of cells a proof happens to mention. */
  function Cell(g: Grid, i: nat, j: nat): int
    requires i < |g| && j < |g[i]|
  {
    g[i][j]
  }

  /** A board: its tiles and the cached position of the blank. */
  datatype Board = Board(tiles: Grid, zeroRow: nat, zeroCol: nat)

  /** The board invariant: a square permutation grid whose cached blank
      position holds the blank. */
  predicate WellFormed(b: Board) {
    && IsSquare(b.tiles)
    && IsPermutation(b.tiles)
    && b.zeroRow < |b.tiles| && b.zeroCol < |b.tiles|
    && b.tiles[b.zeroRow][b.zeroCol] == 0
  }

  // ---------------------------------------------------------------------
  // Construction

  /** No blank follows cell (p, q) in row-major order within rows 0..i-1. */
  predicate NoBlankAfter(g: Grid, p: nat, q: nat, i: nat)
    requires p < i <= |g|
  {
    && (forall c :: q < c < |g[p]| ==> g[p][c] != 0)
    && (forall a, c :: p < a < i && 0 <= c < |g[a]| ==> g[a][c] != 0)
  }

  /** The last blank among the first j cells of a row. */
  function LastBlankInRow(row: seq<int>, j: nat): (r: Option<nat>)
    requires j <= |row|
    ensures r.Some? ==> r.value < j && row[r.value] == 0 && forall c :: r.value < c < j ==> row[c] != 0
    ensures r.None? ==> forall c :: 0 <= c < j ==> row[c] != 0
  {
    if j == 0 then None
    else if row[j - 1] == 0 then Some(j - 1)
    else LastBlankInRow(row, j - 1)
  }

  /** The last blank, in row-major order, among rows 0..i-1. The constructor
      visits every cell in row-major order and overwrites the recorded
      position at each blank, so it ends with this one. */
  function LastBlank(g: Grid, i: nat): (r: Option<(nat, nat)>)
    requires i <= |g|
    ensures r.Some? ==>
      && r.value.0 < i && r.value.1 < |g[r.value.0]|
      && g[r.value.0][r.value.1] == 0
      && NoBlankAfter(g, r.value.0, r.value.1, i)
    ensures r.None? ==> forall a, c :: 0 <= a < i && 0 <= c < |g[a]| ==> g[a][c] != 0
  {
    if i == 0 then None
    else match LastBlankInRow(g[i - 1], |g[i - 1]|)
      case Some(c) => Some((i - 1, c))
      case None => LastBlank(g, i - 1)
  }

  /** The constructor: the board keeps its own copy of the grid (a value
      here, so later changes to the caller's array cannot reach it) and
      records the position of the last blank, or (0, 0) when there is none. */
  function NewBoard(tiles: Grid): (b: Board)
    ensures b.tiles == tiles
    ensures
      || (&& b.zeroRow < |tiles| && b.zeroCol < |tiles[b.zeroRow]|
          && tiles[b.zeroRow][b.zeroCol] == 0
          && NoBlankAfter(tiles, b.zeroRow, b.zeroCol, |tiles|))
      || (&& b.zeroRow == 0 && b.zeroCol == 0
          && forall a, c :: 0 <= a < |tiles| && 0 <= c < |tiles[a]| ==> tiles[a][c] != 0)
  {
    match LastBlank(tiles, |tiles|)
    case Some((r, c)) => Board(tiles, r, c)
    case None => Board(tiles, 0, 0)
  }

  /** On a square permutation grid the constructor finds the one blank and
      yields a well-formed board. */
  lemma NewBoardWellFormed(g: Grid, r: nat, c: nat)
    requires IsSquare(g) && IsPermutation(g)
    requires r < |g| && c < |g| && g[r][c] == 0
    ensures WellFormed(NewBoard(g))
    ensures NewBoard(g).zeroRow == r && NewBoard(g).zeroCol == c
  {
    var b := NewBoard(g);
    assert b.zeroRow < |g| && b.zeroCol < |g[b.zeroRow]| && g[b.zeroRow][b.zeroCol] == 0;
    assert Cell(g, b.zeroRow, b.zeroCol) == Cell(g, r, c);
  }

  // ---------------------------------------------------------------------
  // Cell updates

  function SetCell(g: Grid, r: nat, c: nat, v: int): (h: Grid)
    requires r < |g| && c < |g[r]|
    ensures |h| == |g|
    ensures forall i :: 0 <= i < |g| ==> |h[i]| == |g[i]|
    ensures forall i, j {:trigger h[i][j]} :: 0 <= i < |g| && 0 <= j < |g[i]| ==>
      h[i][j] == if i == r && j == c then v else g[i][j]
  {
    g[r := g[r][c := v]]
  }

  /** The grid with the contents of cells (r1, c1) and (r2, c2) exchanged. */
  function SwapCells(g: Grid, r1: nat, c1: nat, r2: nat, c2: nat): (h: Grid)
    requires r1 < |g| && c1 < |g[r1]| && r2 < |g| && c2 < |g[r2]|
    ensures |h| == |g|
    ensures forall i :: 0 <= i < |g| ==> |h[i]| == |g[i]|
    ensures forall i, j {:trigger h[i][j]} :: 0 <= i < |g| && 0 <= j < |g[i]| ==>
      h[i][j] == if i == r2 && j == c2 then g[r1][c1]
                 else if i == r1 && j == c1 then g[r2][c2]
                 else g[i][j]
  {
    SetCell(SetCell(g, r1, c1, g[r2][c2]), r2, c2, g[r1][c1])
  }

  /** Exchanging two cells keeps a square permutation grid one. */
  lemma SwapKeepsPermutation(g: Grid, r1: nat, c1: nat, r2: nat, c2: nat)
    requires IsSquare(g) && IsPermutation(g)
    requires r1 < |g| && c1 < |g| && r2 < |g| && c2 < |g|
    ensures IsSquare(SwapCells(g, r1, c1, r2, c2))
    ensures IsPermutation(SwapCells(g, r1, c1, r2, c2))
  {
    var h := SwapCells(g, r1, c1, r2, c2);
    var n := |g|;
    /** Where the label of h at (i, j) sat in g. */
    forall i, j, k, l |
      0 <= i < n && 0 <= j < n && 0 <= k < n && 0 <= l < n && Cell(h, i, j) == Cell(h, k, l)
      ensures i == k && j == l
    {
      var (si, sj) := SwapSource(r1, c1, r2, c2, i, j);
      var (sk, sl) := SwapSource(r1, c1, r2, c2, k, l);
      assert h[i][j] == g[si][sj];
      assert h[k][l] == g[sk][sl];
      assert Cell(g, si, sj) == Cell(g, sk, sl);
      SwapSourceInvolution(r1, c1, r2, c2, i, j);
      SwapSourceInvolution(r1, c1, r2, c2, k, l);
    }
  }

  /** The cell whose label the exchange of (r1, c1) and (r2, c2) moves to
      (i, j). */
  function SwapSource(r1: nat, c1: nat, r2: nat, c2: nat, i: nat, j: nat): (nat, nat) {
    if i == r2 && j == c2 then (r1, c1)
    else if i == r1 && j == c1 then (r2, c2)
    else (i, j)
  }

  /** Exchanging twice puts every label back, so distinct cells have
      distinct sources. */
  lemma SwapSourceInvolution(r1: nat, c1: nat, r2: nat, c2: nat, i: nat, j: nat)
    ensures
      var (si, sj) := SwapSource(r1, c1, r2, c2, i, j);
      SwapSource(r1, c1, r2, c2, si, sj) == (i, j)
  {
  }

  // ---------------------------------------------------------------------
  // Heuristics

  /** A non-blank tile whose row-major position is not label - 1. */
  predicate Misplaced(g: Grid, i: nat, j: nat)
    requires i < |g| && j < |g[i]|
  {
    g[i][j] != 0 && i * |g| + j != g[i][j] - 1
  }

  function HammingRow(g: Grid, i: nat, j: nat): (r: nat)
    requires IsSquare(g) && i < |g| && j <= |g|
    ensures r <= |g| - j
    ensures r == 0 <==> forall c :: j <= c < |g| ==> !Misplaced(g, i, c)
    ensures forall c :: j <= c < |g| && !Misplaced(g, i, c) ==> r < |g| - j
    decreases |g| - j
  {
    if j == |g| then 0
    else (if Misplaced(g, i, j) then 1 else 0) + HammingRow(g, i, j + 1)
  }

  function HammingFrom(g: Grid, i: nat): (r: nat)
    requires IsSquare(g) && i <= |g|
    ensures r <= (|g| - i) * |g|
    ensures r == 0 <==> forall a, c :: i <= a < |g| && 0 <= c < |g| ==> !Misplaced(g, a, c)
    ensures forall a, c :: i <= a < |g| && 0 <= c < |g| && !Misplaced(g, a, c) ==> r < (|g| - i) * |g|
    decreases |g| - i
  {
    if i == |g| then 0
    else
      var rest := HammingFrom(g, i + 1);
      assert (|g| - i) * |g| == |g| + (|g| - (i + 1)) * |g|;
      HammingRow(g, i, 0) + rest
  }

  /** `hamming()`: the number of misplaced non-blank tiles. It is zero
      exactly when no tile is misplaced and, on a well-formed board, at most
      n*n - 1 since the blank never counts. */
  function Hamming(b: Board): (r: nat)
    requires IsSquare(b.tiles)
    ensures r == 0 <==>
      forall i, j :: 0 <= i < |b.tiles| && 0 <= j < |b.tiles| ==> !Misplaced(b.tiles, i, j)
    ensures r <= |b.tiles| * |b.tiles|
    ensures WellFormed(b) ==> r <= |b.tiles| * |b.tiles| - 1
  {
    assert WellFormed(b) ==> !Misplaced(b.tiles, b.zeroRow, b.zeroCol);
    HammingFrom(b.tiles, 0)
  }

  /** Java's `/` on int, which truncates toward zero. */
  function JavaDiv(a: int, d: int): int
    requires d > 0
  {
    if a >= 0 then a / d else -((-a) / d)
  }

  /** Java's `%` on int: the remainder that goes with `JavaDiv`. */
  function JavaRem(a: int, d: int): int
    requires d > 0
  {
    a - JavaDiv(a, d) * d
  }

  function Abs(x: int): nat {
    if x < 0 then -x else x
  }

  /** The Manhattan distance of the tile at (i, j) from the cell its label
      names, with Java's integer division; the blank contributes nothing. */
  function Distance(g: Grid, i: nat, j: nat): nat
    requires i < |g| && j < |g[i]|
  {
    var e := g[i][j];
    if e == 0 then 0
    else Abs(j - JavaRem(e - 1, |g|)) + Abs(i - JavaDiv(e - 1, |g|))
  }

  function ManhattanRow(g: Grid, i: nat, j: nat): (r: nat)
    requires IsSquare(g) && i < |g| && j <= |g|
    ensures r == 0 <==> forall c :: j <= c < |g| ==> Distance(g, i, c) == 0
    decreases |g| - j
  {
    if j == |g| then 0
    else Distance(g, i, j) + ManhattanRow(g, i, j + 1)
  }

  function ManhattanFrom(g: Grid, i: nat): (r: nat)
    requires IsSquare(g) && i <= |g|
    ensures r == 0 <==> forall a, c :: i <= a < |g| && 0 <= c < |g| ==> Distance(g, a, c) == 0
    decreases |g| - i
  {
    if i == |g| then 0
    else ManhattanRow(g, i, 0) + ManhattanFrom(g, i + 1)
  }

  /** `manhattan()`: the sum of the tiles' Manhattan distances to their goal
      cells; it is zero exactly when every tile sits at distance zero. */
  function Manhattan(b: Board): (r: nat)
    requires IsSquare(b.tiles)
    ensures r == 0 <==>
      forall i, j :: 0 <= i < |b.tiles| && 0 <= j < |b.tiles| ==> Distance(b.tiles, i, j) == 0
  {
    ManhattanFrom(b.tiles, 0)
  }

  /** A misplaced tile is at least one step from its goal cell. */
  lemma MisplacedIsAway(g: Grid, i: nat, j: nat)
    requires IsSquare(g) && i < |g| && j < |g|
    ensures Misplaced(g, i, j) ==> Distance(g, i, j) >= 1
  {
  }

  lemma {:induction false} HammingRowAtMostManhattanRow(g: Grid, i: nat, j: nat)
    requires IsSquare(g) && i < |g| && j <= |g|
    ensures HammingRow(g, i, j) <= ManhattanRow(g, i, j)
    decreases |g| - j
  {
    if j < |g| {
      MisplacedIsAway(g, i, j);
      HammingRowAtMostManhattanRow(g, i, j + 1);
    }
  }

  lemma {:induction false} HammingFromAtMostManhattanFrom(g: Grid, i: nat)
    requires IsSquare(g) && i <= |g|
    ensures HammingFrom(g, i) <= ManhattanFrom(g, i)
    decreases |g| - i
  {
    if i < |g| {
      HammingRowAtMostManhattanRow(g, i, 0);
      HammingFromAtMostManhattanFrom(g, i + 1);
      SumsOrdered(HammingRow(g, i, 0), HammingFrom(g, i + 1), ManhattanRow(g, i, 0), ManhattanFrom(g, i + 1));
    }
  }

  /** Sums of pairwise ordered terms are ordered. */
  lemma SumsOrdered(a: int, b: int, c: int, d: int)
    requires a <= c && b <= d
    ensures a + b <= c + d
  {
  }

  /** Each misplaced tile contributes one to `hamming` and at least one to
      `manhattan`, so the Hamming count never exceeds the Manhattan sum. */
  lemma HammingAtMostManhattan(b: Board)
    requires IsSquare(b.tiles)
    ensures Hamming(b) <= Manhattan(b)
  {
    HammingFromAtMostManhattanFrom(b.tiles, 0);
  }

  // ---------------------------------------------------------------------
  // Goal test and equality

  /** The label the goal board has at (i, j): row-major 1..n*n-1, blank last. */
  function GoalLabel(n: nat, i: nat, j: nat): int {
    if i == n - 1 && j == n - 1 then 0 else i * n + j + 1
  }

  /** Rows i..n-2 of the last column hold their goal labels. */
  function LastColumnInPlace(g: Grid, i: nat): (r: bool)
    requires IsSquare(g) && |g| >= 1
    ensures r <==> forall a :: i <= a < |g| - 1 ==> g[a][|g| - 1] == a * |g| + |g|
    decreases |g| - i
  {
    if i >= |g| - 1 then true
    else g[i][|g| - 1] == i * |g| + |g| && LastColumnInPlace(g, i + 1)
  }

  /** Columns 0..n-2 of rows i.. hold their goal labels, starting at column j of row i. */
  function OtherColumnsInPlace(g: Grid, i: nat, j: nat): (r: bool)
    requires IsSquare(g) && |g| >= 1 && i <= |g| && j <= |g| - 1
    ensures r <==>
      && (i < |g| ==> forall c :: j <= c < |g| - 1 ==> g[i][c] == i * |g| + c + 1)
      && (forall a, c :: i < a < |g| && 0 <= c < |g| - 1 ==> g[a][c] == a * |g| + c + 1)
    decreases |g| - i, |g| - j
  {
    if i == |g| then true
    else if j == |g| - 1 then OtherColumnsInPlace(g, i + 1, 0)
    else g[i][j] == i * |g| + j + 1 && OtherColumnsInPlace(g, i, j + 1)
  }

  /** `isGoal()`: the blank is in the last cell and every other cell (i, j)
      holds i*n + j + 1, decided by the three checks of `isGoal`: last cell,
      last column, then the other columns. */
  function IsGoal(b: Board): (r: bool)
    requires IsSquare(b.tiles) && |b.tiles| >= 1
    ensures r <==>
      forall i, j :: 0 <= i < |b.tiles| && 0 <= j < |b.tiles| ==>
        b.tiles[i][j] == GoalLabel(|b.tiles|, i, j)
  {
    var g := b.tiles;
    var n := |g|;
    var res := g[n - 1][n - 1] == 0 && LastColumnInPlace(g, 0) && OtherColumnsInPlace(g, 0, 0);
    assert res ==> forall i, j :: 0 <= i < n && 0 <= j < n ==> g[i][j] == GoalLabel(n, i, j) by {
      if res {
        forall i, j | 0 <= i < n && 0 <= j < n
          ensures g[i][j] == GoalLabel(n, i, j)
        {
          if j == n - 1 && i < n - 1 {
            assert g[i][n - 1] == i * n + n;
          }
        }
      }
    }
    res
  }

  /** (n - 1) * n + (n - 1) + 1 == n * n: the last cell's row-major label
      would be out of range. */
  lemma LastCellLabel(n: nat)
    requires n >= 1
    ensures (n - 1) * n + (n - 1) + 1 == n * n
  {
  }

  /** On a well-formed board the goal test agrees with a zero Hamming count:
      with no misplaced tile, the last cell cannot hold a tile, since its
      label would have to be n*n. */
  lemma GoalIffHammingZero(b: Board)
    requires WellFormed(b)
    ensures IsGoal(b) <==> Hamming(b) == 0
  {
    var g := b.tiles;
    var n := |g|;
    if Hamming(b) == 0 {
      LastCellLabel(n);
      assert !Misplaced(g, n - 1, n - 1);
      assert g[n - 1][n - 1] == 0;
      forall i, j | 0 <= i < n && 0 <= j < n
        ensures g[i][j] == GoalLabel(n, i, j)
      {
        assert !Misplaced(g, i, j);
        if g[i][j] == 0 {
          assert Cell(g, i, j) == Cell(g, n - 1, n - 1);
        }
      }
    }
    if IsGoal(b) {
      forall i, j | 0 <= i < n && 0 <= j < n
        ensures !Misplaced(g, i, j)
      {
        assert g[i][j] == GoalLabel(n, i, j);
      }
    }
  }

  /** Division of a row-major index by the row length recovers row and column. */
  lemma RowMajorDivision(i: nat, j: nat, n: nat)
    requires j < n
    ensures JavaDiv(i * n + j, n) == i && JavaRem(i * n + j, n) == j
  {
    var q := (i * n + j) / n;
    var r := (i * n + j) % n;
    assert (q - i) * n == j - r;
    OnlyZeroTimesIsSmall(q - i, n);
  }

  /** A multiple of n strictly between -n and n is zero. */
  lemma OnlyZeroTimesIsSmall(x: int, n: int)
    requires n > 0 && -n < x * n < n
    ensures x == 0
  {
    assert x >= 1 ==> x * n >= 1 * n;
    assert x <= -1 ==> x * n <= -1 * n;
  }

  /** On a well-formed board the goal test agrees with a zero Manhattan sum. */
  lemma GoalIffManhattanZero(b: Board)
    requires WellFormed(b)
    ensures IsGoal(b) <==> Manhattan(b) == 0
  {
    var g := b.tiles;
    var n := |g|;
    if IsGoal(b) {
      forall i, j | 0 <= i < n && 0 <= j < n
        ensures Distance(g, i, j) == 0
      {
        assert g[i][j] == GoalLabel(n, i, j);
        if g[i][j] != 0 {
          RowMajorDivision(i, j, n);
        }
      }
    }
    if Manhattan(b) == 0 {
      HammingAtMostManhattan(b);
      GoalIffHammingZero(b);
    }
  }

  /** `equals`: boards of different dimension differ; otherwise they are
      equal exactly when every cell matches. The cached blank position is
      not compared. */
  function Equals(a: Board, b: Board): (r: bool)
    requires IsSquare(a.tiles) && IsSquare(b.tiles)
    ensures r <==> a.tiles == b.tiles
  {
    |a.tiles| == |b.tiles| && RowsEqual(a.tiles, b.tiles, 0)
  }

  function RowsEqual(g: Grid, h: Grid, i: nat): (r: bool)
    requires IsSquare(g) && IsSquare(h) && |g| == |h| && i <= |g|
    ensures r <==> g[i..] == h[i..]
    decreases |g| - i
  {
    if i == |g| then true
    else CellsEqual(g[i], h[i], 0) && RowsEqual(g, h, i + 1)
  }

  function CellsEqual(u: seq<int>, v: seq<int>, j: nat): (r: bool)
    requires |u| == |v| && j <= |u|
    ensures r <==> u[j..] == v[j..]
    decreases |u| - j
  {
    if j == |u| then true
    else u[j] == v[j] && CellsEqual(u, v, j + 1)
  }

  // ---------------------------------------------------------------------
  // Successors

  /** Where (r', c') lies relative to (r, c): 0 up, 1 down, 2 left, 3 right,
      4 when the cells are not orthogonally adjacent. */
  function Direction(r: nat, c: nat, r': nat, c': nat): nat {
    if r' + 1 == r && c' == c then 0
    else if r' == r + 1 && c' == c then 1
    else if r' == r && c' + 1 == c then 2
    else if r' == r && c' == c + 1 then 3
    else 4
  }

  /** b' is b after one slide: a well-formed board of the same dimension whose
      blank sits next to b's and whose grid is b's with those two cells
      exchanged, every other cell unchanged. */
  predicate IsMove(b: Board, b': Board)
    requires WellFormed(b)
  {
    && WellFormed(b')
    && |b'.tiles| == |b.tiles|
    && Direction(b.zeroRow, b.zeroCol, b'.zeroRow, b'.zeroCol) < 4
    && b'.tiles == SwapCells(b.tiles, b.zeroRow, b.zeroCol, b'.zeroRow, b'.zeroCol)
  }

  /** `getNeighbor(row, col)`: the blank's cell receives the tile at
      (row, col) and that cell becomes blank; this board itself is a value
      and stays as it was. */
  function GetNeighbor(b: Board, row: nat, col: nat): (r: Board)
    requires IsSquare(b.tiles)
    requires row < |b.tiles| && col < |b.tiles|
    requires b.zeroRow < |b.tiles| && b.zeroCol < |b.tiles|
    ensures WellFormed(b) && (row != b.zeroRow || col != b.zeroCol) ==>
      && WellFormed(r)
      && r.zeroRow == row && r.zeroCol == col
      && r.tiles == SwapCells(b.tiles, b.zeroRow, b.zeroCol, row, col)
  {
    var g := b.tiles;
    var moved := SetCell(SetCell(g, b.zeroRow, b.zeroCol, g[row][col]), row, col, 0);
    assert WellFormed(b) && (row != b.zeroRow || col != b.zeroCol) ==>
      && WellFormed(NewBoard(moved))
      && NewBoard(moved).zeroRow == row && NewBoard(moved).zeroCol == col
      && moved == SwapCells(g, b.zeroRow, b.zeroCol, row, col)
    by {
      if WellFormed(b) && (row != b.zeroRow || col != b.zeroCol) {
        assert moved == SwapCells(g, b.zeroRow, b.zeroCol, row, col);
        SwapKeepsPermutation(g, b.zeroRow, b.zeroCol, row, col);
        NewBoardWellFormed(moved, row, col);
      }
    }
    NewBoard(moved)
  }

  predicate OnBorder(n: nat, x: nat) {
    x == 0 || x == n - 1
  }

  /** The cells next to the blank that `neighbors()` slides from, in the
      order up, down, left, right, each kept only when it lies inside the
      grid. */
  function Targets(b: Board): (t: seq<(nat, nat)>)
    requires IsSquare(b.tiles)
    requires b.zeroRow < |b.tiles| && b.zeroCol < |b.tiles|
    ensures forall k :: 0 <= k < |t| ==>
      t[k].0 < |b.tiles| && t[k].1 < |b.tiles| && Direction(b.zeroRow, b.zeroCol, t[k].0, t[k].1) < 4
    ensures forall k, l :: 0 <= k < l < |t| ==>
      Direction(b.zeroRow, b.zeroCol, t[k].0, t[k].1) < Direction(b.zeroRow, b.zeroCol, t[l].0, t[l].1)
    ensures forall p: nat, q: nat :: p < |b.tiles| && q < |b.tiles| && Direction(b.zeroRow, b.zeroCol, p, q) < 4 ==>
      (p, q) in t
  {
    var n := |b.tiles|;
    var zr := b.zeroRow;
    var zc := b.zeroCol;
    var up := if zr >= 1 then [(zr - 1, zc)] else [];
    var down := if zr + 1 < n then [(zr + 1, zc)] else [];
    var left := if zc >= 1 then [(zr, zc - 1)] else [];
    var right := if zc + 1 < n then [(zr, zc + 1)] else [];
    up + down + left + right
  }

  /** How many cells lie next to the blank: two from a corner, three from
      the rest of the border, four from the interior. */
  lemma TargetCounts(b: Board)
    requires IsSquare(b.tiles)
    requires b.zeroRow < |b.tiles| && b.zeroCol < |b.tiles|
    ensures |b.tiles| >= 2 && OnBorder(|b.tiles|, b.zeroRow) && OnBorder(|b.tiles|, b.zeroCol) ==> |Targets(b)| == 2
    ensures |b.tiles| >= 2 && (OnBorder(|b.tiles|, b.zeroRow) != OnBorder(|b.tiles|, b.zeroCol)) ==> |Targets(b)| == 3
    ensures |b.tiles| >= 2 && !OnBorder(|b.tiles|, b.zeroRow) && !OnBorder(|b.tiles|, b.zeroCol) ==> |Targets(b)| == 4
  {
  }

  /** `neighbors()`: the boards one slide away, in the order up, down, left,
      right of the blank, skipping directions that leave the grid: two from
      a corner, three from the rest of the border, four from the interior. */
  function Neighbors(b: Board): (r: seq<Board>)
    requires IsSquare(b.tiles)
    requires b.zeroRow < |b.tiles| && b.zeroCol < |b.tiles|
    ensures |b.tiles| >= 2 && OnBorder(|b.tiles|, b.zeroRow) && OnBorder(|b.tiles|, b.zeroCol) ==> |r| == 2
    ensures |b.tiles| >= 2 && (OnBorder(|b.tiles|, b.zeroRow) != OnBorder(|b.tiles|, b.zeroCol)) ==> |r| == 3
    ensures |b.tiles| >= 2 && !OnBorder(|b.tiles|, b.zeroRow) && !OnBorder(|b.tiles|, b.zeroCol) ==> |r| == 4
  {
    TargetCounts(b);
    Slides(b, Targets(b))
  }

  /** The boards reached by sliding the tile of each cell of `targets` into
      the blank, in the order of `targets`. */
  function Slides(b: Board, targets: seq<(nat, nat)>): (r: seq<Board>)
    requires IsSquare(b.tiles)
    requires b.zeroRow < |b.tiles| && b.zeroCol < |b.tiles|
    requires forall k :: 0 <= k < |targets| ==> targets[k].0 < |b.tiles| && targets[k].1 < |b.tiles|
    ensures |r| == |targets|
    decreases |targets|
  {
    if |targets| == 0 then []
    else [GetNeighbor(b, targets[0].0, targets[0].1)] + Slides(b, targets[1..])
  }

  /** The k-th slide is `getNeighbor` of the k-th target cell. */
  lemma {:induction false} SlidesAt(b: Board, targets: seq<(nat, nat)>, k: nat)
    requires IsSquare(b.tiles)
    requires b.zeroRow < |b.tiles| && b.zeroCol < |b.tiles|
    requires forall k :: 0 <= k < |targets| ==> targets[k].0 < |b.tiles| && targets[k].1 < |b.tiles|
    requires k < |targets|
    ensures Slides(b, targets)[k] == GetNeighbor(b, targets[k].0, targets[k].1)
    decreases k
  {
    if k > 0 {
      SlidesAt(b, targets[1..], k - 1);
    }
  }

  /** Each neighbour of a well-formed board is one slide of its blank, and
      the neighbours come in the order up, down, left, right. */
  lemma NeighborsAreSlides(b: Board)
    requires WellFormed(b)
    ensures forall k :: 0 <= k < |Neighbors(b)| ==> IsMove(b, Neighbors(b)[k])
    ensures forall k, l :: 0 <= k < l < |Neighbors(b)| ==>
      Direction(b.zeroRow, b.zeroCol, Neighbors(b)[k].zeroRow, Neighbors(b)[k].zeroCol)
        < Direction(b.zeroRow, b.zeroCol, Neighbors(b)[l].zeroRow, Neighbors(b)[l].zeroCol)
  {
    var t := Targets(b);
    var r := Neighbors(b);
    forall k | 0 <= k < |r|
      ensures IsMove(b, r[k]) && r[k].zeroRow == t[k].0 && r[k].zeroCol == t[k].1
    {
      SlidesAt(b, t, k);
      assert Direction(b.zeroRow, b.zeroCol, t[k].0, t[k].1) < 4;
    }
  }

  /** Exactly the one-slide boards are neighbours. */
  lemma NeighborsAreMoves(b: Board, b': Board)
    requires WellFormed(b)
    ensures b' in Neighbors(b) <==> IsMove(b, b')
  {
    var r := Neighbors(b);
    var t := Targets(b);
    NeighborsAreSlides(b);
    if IsMove(b, b') {
      var p, q := b'.zeroRow, b'.zeroCol;
      assert (p, q) in t;
      var k :| 0 <= k < |t| && t[k] == (p, q);
      SlidesAt(b, t, k);
      assert r[k] == GetNeighbor(b, p, q) == b';
    }
  }

  /** Every neighbour is a square grid of the same dimension. */
  lemma NeighborsSquare(b: Board, b': Board)
    requires WellFormed(b) && b' in Neighbors(b)
    ensures IsSquare(b'.tiles) && |b'.tiles| == |b.tiles|
  {
    NeighborsWellFormed(b, b');
  }

  /** Every neighbour is a well-formed board of the same dimension. */
  lemma NeighborsWellFormed(b: Board, b': Board)
    requires WellFormed(b) && b' in Neighbors(b)
    ensures WellFormed(b') && |b'.tiles| == |b.tiles|
  {
    NeighborsAreMoves(b, b');
  }

  /** Distinct neighbours have distinct grids: each has its blank where the
      others keep a tile. */
  lemma NeighborsDistinct(b: Board)
    requires WellFormed(b)
    ensures forall k, l :: 0 <= k < l < |Neighbors(b)| ==> Neighbors(b)[k].tiles != Neighbors(b)[l].tiles
  {
    var r := Neighbors(b);
    NeighborsAreSlides(b);
    forall k, l | 0 <= k < l < |r|
      ensures r[k].tiles != r[l].tiles
    {
      var p := r[k].zeroRow;
      var q := r[k].zeroCol;
      assert IsMove(b, r[k]) && IsMove(b, r[l]);
      assert (p, q) != (r[l].zeroRow, r[l].zeroCol);
      assert r[l].tiles[p][q] == b.tiles[p][q];
      assert Cell(b.tiles, p, q) != Cell(b.tiles, b.zeroRow, b.zeroCol);
    }
  }

  // ---------------------------------------------------------------------
  // Twin

  /** What `twin()` produces: a board, null, or the index-out-of-bounds
      exception that the scan raises when it reaches row or column -1. */
  datatype TwinOutcome = Found(board: Board) | NotFound | OutOfBounds

  /** The scan of `twin()`: row i from n-1 down to n-2, column j from n-1
      down to n-2; at the first cell (i, j) that holds a tile while the cell
      above it does too, those two tiles are exchanged. */
  function TwinScan(g: Grid, i: int, j: int): TwinOutcome
    requires IsSquare(g)
    requires |g| - 2 <= i <= |g| - 1 && |g| - 3 <= j <= |g| - 1
    decreases i - (|g| - 2), j - (|g| - 3)
  {
    var n := |g|;
    if j < n - 2 then
      if i - 1 < n - 2 then NotFound else TwinScan(g, i - 1, n - 1)
    else if i < 0 || j < 0 then OutOfBounds
    else if g[i][j] == 0 then TwinScan(g, i, j - 1)
    else if i - 1 < 0 then OutOfBounds
    else if g[i - 1][j] == 0 then TwinScan(g, i, j - 1)
    else Found(NewBoard(SwapCells(g, i, j, i - 1, j)))
  }

  /** The column of the bottom-right 2x2 block that `twin()` swaps on a
      well-formed board: the last one unless it holds the blank. */
  function TwinColumn(b: Board): nat
    requires IsSquare(b.tiles) && |b.tiles| >= 2
  {
    var n := |b.tiles|;
    if b.tiles[n - 1][n - 1] != 0 && b.tiles[n - 2][n - 1] != 0 then n - 1 else n - 2
  }

  /** `twin()`: on a well-formed board of dimension at least 2 it always
      finds a pair in the last row, so the row n-2 pass is never reached:
      it exchanges the two tiles of column `TwinColumn(b)` in the last two
      rows, both non-blank, and keeps the blank where it was. Dimension 0
      or 1 reaches index -1. */
  function Twin(b: Board): (r: TwinOutcome)
    requires IsSquare(b.tiles)
    ensures |b.tiles| <= 1 ==> r == OutOfBounds
    ensures WellFormed(b) && |b.tiles| >= 2 ==> TwinSwapsLastRows(b, r)
  {
    TwinOutcomes(b);
    TwinScan(b.tiles, |b.tiles| - 1, |b.tiles| - 1)
  }

  /** The outcomes of the scan, by case: index -1 on tiny boards, and on
      well-formed larger ones the swap in the last two rows. */
  lemma TwinOutcomes(b: Board)
    requires IsSquare(b.tiles)
    ensures
      var n := |b.tiles|;
      var r := TwinScan(b.tiles, n - 1, n - 1);
      && (n <= 1 ==> r == OutOfBounds)
      && (WellFormed(b) && n >= 2 ==> TwinSwapsLastRows(b, r))
  {
    var n := |b.tiles|;
    if n <= 1 {
      TwinScanTiny(b.tiles);
    } else if WellFormed(b) {
      TwinFound(b);
    }
  }

  /** What `twin()` yields on a well-formed board of dimension n >= 2: the
      board with the two non-blank tiles of column `TwinColumn(b)` in the
      last two rows exchanged, well formed, different from b, with the
      blank where it was. */
  predicate TwinSwapsLastRows(b: Board, r: TwinOutcome)
    requires WellFormed(b) && |b.tiles| >= 2
  {
    var n := |b.tiles|;
    var c := TwinColumn(b);
    && r.Found?
    && b.tiles[n - 1][c] != 0 && b.tiles[n - 2][c] != 0
    && r.board.tiles == SwapCells(b.tiles, n - 1, c, n - 2, c)
    && r.board.tiles != b.tiles
    && WellFormed(r.board)
    && r.board.zeroRow == b.zeroRow && r.board.zeroCol == b.zeroCol
  }

  lemma TwinFound(b: Board)
    requires WellFormed(b) && |b.tiles| >= 2
    ensures TwinSwapsLastRows(b, TwinScan(b.tiles, |b.tiles| - 1, |b.tiles| - 1))
  {
    var n := |b.tiles|;
    var c := TwinColumn(b);
    TwinScanFindsLastRow(b);
    SwapTilesWellFormed(b, n - 1, c, n - 2, c);
  }

  /** On a 0x0 or 1x1 grid the scan reaches row or column -1. */
  lemma TwinScanTiny(g: Grid)
    requires IsSquare(g) && |g| <= 1
    ensures TwinScan(g, |g| - 1, |g| - 1) == OutOfBounds
  {
    if |g| == 1 && g[0][0] == 0 {
      assert TwinScan(g, 0, 0) == TwinScan(g, 0, -1);
    }
  }

  /** The proof behind `Twin`: on a well-formed board the first cell of the
      scan, or the one to its left, starts a swappable vertical pair. */
  lemma TwinScanFindsLastRow(b: Board)
    requires WellFormed(b) && |b.tiles| >= 2
    ensures
      var g := b.tiles;
      var n := |g|;
      var c := TwinColumn(b);
      && g[n - 1][c] != 0 && g[n - 2][c] != 0
      && TwinScan(g, n - 1, n - 1) == Found(NewBoard(SwapCells(g, n - 1, c, n - 2, c)))
  {
    var g := b.tiles;
    var n := |g|;
    var c := TwinColumn(b);
    var r := TwinScan(g, n - 1, n - 1);
    if c == n - 1 {
      assert r == Found(NewBoard(SwapCells(g, n - 1, n - 1, n - 2, n - 1)));
    } else {
      assert g[n - 1][n - 2] != 0 && g[n - 2][n - 2] != 0 by {
        if g[n - 1][n - 1] == 0 {
          assert Cell(g, n - 1, n - 2) != Cell(g, n - 1, n - 1) && Cell(g, n - 2, n - 2) != Cell(g, n - 1, n - 1);
        } else {
          assert Cell(g, n - 1, n - 2) != Cell(g, n - 2, n - 1) && Cell(g, n - 2, n - 2) != Cell(g, n - 2, n - 1);
        }
      }
      assert r == TwinScan(g, n - 1, n - 2);
    }
  }

  /** Exchanging two tiles of a well-formed board gives a well-formed board
      with the blank in the same place and a different grid. */
  lemma SwapTilesWellFormed(b: Board, r1: nat, c1: nat, r2: nat, c2: nat)
    requires WellFormed(b)
    requires r1 < |b.tiles| && c1 < |b.tiles| && r2 < |b.tiles| && c2 < |b.tiles|
    requires (r1, c1) != (r2, c2)
    requires b.tiles[r1][c1] != 0 && b.tiles[r2][c2] != 0
    ensures
      var t := NewBoard(SwapCells(b.tiles, r1, c1, r2, c2));
      && WellFormed(t)
      && t.zeroRow == b.zeroRow && t.zeroCol == b.zeroCol
      && t.tiles != b.tiles
  {
    var g := b.tiles;
    var h := SwapCells(g, r1, c1, r2, c2);
    SwapKeepsPermutation(g, r1, c1, r2, c2);
    assert h[b.zeroRow][b.zeroCol] == 0;
    NewBoardWellFormed(h, b.zeroRow, b.zeroCol);
    assert h[r1][c1] == g[r2][c2] != g[r1][c1] by {
      assert Cell(g, r2, c2) != Cell(g, r1, c1);
    }
  }

  // ---------------------------------------------------------------------
  // Paths

  /** A sequence of well-formed boards, each a neighbour of the one before. */
  predicate IsPath(p: seq<Board>) {
    && (forall k :: 0 <= k < |p| ==> WellFormed(p[k]))
    && (forall k :: 0 <= k < |p| - 1 ==> p[k + 1] in Neighbors(p[k]))
  }
}
