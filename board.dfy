/** The sliding-puzzle board of the A* solver: N×N tiles in row-major order,
    where tile 0 is the blank and tile v (v ≥ 1) belongs at position v - 1. */
module Puzzle {
  import opened GridArith

  /** A board value. The C++ Board derives N as the square root of the tile
      count; here N is carried alongside the tiles. */
  datatype Board = Board(n: int, tiles: seq<int>)
  {
    /** What a caller must guarantee when it constructs a board: N in
        [2, 128] and N² distinct tiles drawn from [0, N²). */
    ghost predicate Valid() {
      2 <= n <= 128 && |tiles| == n * n && Permutation(tiles)
    }
  }

  /** t holds distinct values, each in [0, |t|). */
  ghost predicate Permutation(t: seq<int>) {
    && (forall i :: 0 <= i < |t| ==> 0 <= t[i] < |t|)
    && (forall i, j :: 0 <= i < j < |t| ==> t[i] != t[j])
  }

  /** Board::Board: a board built from tiles that meet the constructor's
      documented precondition. */
  function MakeBoard(n: int, tiles: seq<int>): (b: Board)
    requires 2 <= n <= 128 && |tiles| == n * n && Permutation(tiles)
    ensures b.Valid() && b.n == n && b.tiles == tiles
  {
    Board(n, tiles)
  }

  // ---------------------------------------------------------------------
  // Row and column of a position and of its four neighbours

  lemma UpFacts(n: int, p: int)
    requires n > 0 && 0 <= p < n * n && p / n > 0
    ensures p - n >= 0 && (p - n) / n == p / n - 1 && (p - n) % n == p % n
  {
    RowBound(n, p);
    MulAtLeast(p / n, n);
    DivModUnique(p - n, n, p / n - 1, p % n);
  }

  lemma DownFacts(n: int, p: int)
    requires n > 0 && 0 <= p < n * n && p / n < n - 1
    ensures p + n < n * n && (p + n) / n == p / n + 1 && (p + n) % n == p % n
  {
    RowBound(n, p);
    var r, c := p / n, p % n;
    assert p + n == (r + 1) * n + c;
    assert n * n == (r + 2) * n + (n - r - 2) * n;
    if n - r - 2 >= 1 { MulAtLeast(n - r - 2, n); }
    DivModUnique(p + n, n, r + 1, c);
  }

  lemma LeftFacts(n: int, p: int)
    requires n > 0 && 0 <= p < n * n && p % n > 0
    ensures (p - 1) / n == p / n && (p - 1) % n == p % n - 1
  {
    RowBound(n, p);
    DivModUnique(p - 1, n, p / n, p % n - 1);
  }

  lemma RightFacts(n: int, p: int)
    requires n > 0 && 0 <= p < n * n && p % n < n - 1
    ensures p + 1 < n * n && (p + 1) / n == p / n && (p + 1) % n == p % n + 1
  {
    RowBound(n, p);
    DivModUnique(p + 1, n, p / n, p % n + 1);
    if p + 1 == n * n {
      DivModUnique(n * n, n, n, 0);
      assert false;
    }
  }

  /** Row and column of a position on the grid, and of its four neighbours. */
  lemma GridFacts(n: int, p: int)
    requires n > 0 && 0 <= p < n * n
    ensures p == (p / n) * n + p % n
    ensures 0 <= p / n < n && 0 <= p % n < n
    ensures p / n > 0 ==> p - n >= 0 && (p - n) / n == p / n - 1 && (p - n) % n == p % n
    ensures p / n < n - 1 ==> p + n < n * n && (p + n) / n == p / n + 1 && (p + n) % n == p % n
    ensures p % n > 0 ==> (p - 1) / n == p / n && (p - 1) % n == p % n - 1
    ensures p % n < n - 1 ==> p + 1 < n * n && (p + 1) / n == p / n && (p + 1) % n == p % n + 1
  {
    RowBound(n, p);
    if p / n > 0 { UpFacts(n, p); }
    if p / n < n - 1 { DownFacts(n, p); }
    if p % n > 0 { LeftFacts(n, p); }
    if p % n < n - 1 { RightFacts(n, p); }
  }

  /** The cells around a position (row and column counted from 1) that
      neighbours() may swap with lie on the grid. */
  lemma CellBounds(n: int, p: int, row: int, col: int)
    requires n > 0 && 0 <= p < n * n && row == p / n + 1 && col == p % n + 1
    ensures 1 <= row <= n && 1 <= col <= n
    ensures row > 1 ==> p - n >= 0
    ensures row < n ==> p + n < n * n
    ensures col > 1 ==> p - 1 >= 0
    ensures col < n ==> p + 1 < n * n
  {
    GridFacts(n, p);
  }

  /** Two positions with the same row and column are the same position. */
  lemma SameCell(n: int, p: int, q: int)
    requires n > 0 && p / n == q / n && p % n == q % n
    ensures p == q
  {
    assert p == (p / n) * n + p % n;
    assert q == (q / n) * n + q % n;
  }

  // ---------------------------------------------------------------------
  // Pigeonhole: a permutation of [0, m) contains every value of [0, m)

  lemma DistinctWithin(t: seq<int>, s: set<int>)
    requires forall i :: 0 <= i < |t| ==> t[i] in s
    requires forall i, j :: 0 <= i < j < |t| ==> t[i] != t[j]
    ensures |t| <= |s|
  {
    if |t| > 0 {
      DistinctWithin(t[1..], s - {t[0]});
    }
  }

  /** The integers 0, 1, ..., m - 1. */
  function Range(m: nat): (s: set<int>)
    ensures forall v :: v in s <==> 0 <= v < m
    ensures |s| == m
  {
    if m == 0 then {} else Range(m - 1) + {m - 1}
  }

  lemma {:induction false} ValuePresent(t: seq<int>, v: int)
    requires Permutation(t) && 0 <= v < |t|
    ensures exists p :: 0 <= p < |t| && t[p] == v
  {
    if forall p :: 0 <= p < |t| ==> t[p] != v {
      var s := Range(|t|) - {v};
      assert |s| == |t| - 1;
      DistinctWithin(t, s);
    }
  }

  /** The position of the blank, which a valid board has exactly once. */
  ghost function Blank(b: Board): (p: nat)
    requires b.Valid()
    ensures p < |b.tiles| && b.tiles[p] == 0
    ensures forall k :: 0 <= k < |b.tiles| && b.tiles[k] == 0 ==> k == p
  {
    ValuePresent(b.tiles, 0);
    var p :| 0 <= p < |b.tiles| && b.tiles[p] == 0;
    p
  }

  // ---------------------------------------------------------------------
  // hamming

  /** Number of positions among the first k whose tile is not the blank and
      not the tile that belongs there ("tiles out of place"). */
  function Misplaced(t: seq<int>, k: nat): nat
    requires k <= |t|
  {
    if k == 0 then 0
    else Misplaced(t, k - 1) + (if t[k - 1] != 0 && t[k - 1] != k then 1 else 0)
  }

  function HammingOf(b: Board): nat {
    Misplaced(b.tiles, |b.tiles|)
  }

  /** Board::hamming. */
  method Hamming(b: Board) returns (count: int)
    requires b.Valid()
    ensures count == HammingOf(b)
  {
    count := 0;
    var i := 0;
    while i < b.n * b.n
      invariant 0 <= i <= b.n * b.n
      invariant count == Misplaced(b.tiles, i)
    {
      if b.tiles[i] != 0 && b.tiles[i] != i + 1 {
        count := count + 1;
      }
      i := i + 1;
    }
  }

  lemma {:induction false} MisplacedBelow(t: seq<int>, k: nat, p: nat)
    requires k <= |t| && p < |t| && t[p] == 0
    ensures Misplaced(t, k) <= (if p < k then k - 1 else k)
  {
    if k > 0 {
      MisplacedBelow(t, k - 1, p);
    }
  }

  /** 0 <= hamming <= N² - 1: the blank is never counted. */
  lemma HammingBounds(b: Board)
    requires b.Valid()
    ensures 0 <= HammingOf(b) <= b.n * b.n - 1
  {
    MisplacedBelow(b.tiles, |b.tiles|, Blank(b));
  }

  // ---------------------------------------------------------------------
  // manhattan

  function Abs(x: int): nat {
    if x < 0 then -x else x
  }

  /** Row of grid position i, counting from 0: the number of whole rows of
      N cells before it. */
  function Row(n: int, i: nat): nat
    decreases i
  {
    if n <= 0 || i < n then 0 else Row(n, i - n) + 1
  }

  /** Column of grid position i, counting from 0. */
  function Col(n: int, i: nat): nat
    decreases i
  {
    if n <= 0 || i < n then i else Col(n, i - n)
  }

  /** Row and column are the quotient and remainder the C++ code computes. */
  lemma {:induction false} RowColDivMod(n: int, i: nat)
    requires n > 0
    ensures Row(n, i) == i / n && Col(n, i) == i % n
    decreases i
  {
    if i < n {
      DivModUnique(i, n, 0, i);
    } else {
      RowColDivMod(n, i - n);
      assert i - n == ((i - n) / n) * n + (i - n) % n;
      DivModUnique(i, n, (i - n) / n + 1, (i - n) % n);
    }
  }

  /** Rows plus columns between position i and the goal position tile - 1 of
      the tile at i; the blank (and any tile below 1, which a valid board
      does not hold) contributes nothing. */
  function TileDistance(n: int, i: nat, tile: int): nat {
    if tile <= 0 then 0 else Abs(Row(n, i) - Row(n, tile - 1)) + Abs(Col(n, i) - Col(n, tile - 1))
  }

  function DistanceSum(n: int, t: seq<int>, k: nat): nat
    requires k <= |t|
  {
    if k == 0 then 0 else DistanceSum(n, t, k - 1) + TileDistance(n, k - 1, t[k - 1])
  }

  function ManhattanOf(b: Board): nat {
    DistanceSum(b.n, b.tiles, |b.tiles|)
  }

  /** Board::manhattan. */
  method Manhattan(b: Board) returns (distance: int)
    requires b.Valid()
    ensures distance == ManhattanOf(b)
  {
    distance := 0;
    var i := 0;
    while i < b.n * b.n
      invariant 0 <= i <= b.n * b.n
      invariant distance == DistanceSum(b.n, b.tiles, i)
    {
      if b.tiles[i] != 0 {
        RowColDivMod(b.n, i);
        RowColDivMod(b.n, b.tiles[i] - 1);
        var rowDistance := Abs(i / b.n - (b.tiles[i] - 1) / b.n);
        var colDistance := Abs(i % b.n - (b.tiles[i] - 1) % b.n);
        distance := distance + rowDistance + colDistance;
      }
      i := i + 1;
    }
  }

  /** A misplaced tile is at least one step away from its goal; a tile that
      is in place or blank is zero steps away. */
  lemma TileDistanceFacts(n: int, i: nat, tile: int)
    requires n > 0 && tile >= 0
    ensures tile != 0 && tile != i + 1 ==> TileDistance(n, i, tile) >= 1
    ensures tile == 0 || tile == i + 1 ==> TileDistance(n, i, tile) == 0
  {
    if tile != 0 && tile != i + 1 && TileDistance(n, i, tile) == 0 {
      RowColDivMod(n, i);
      RowColDivMod(n, tile - 1);
      SameCell(n, i, tile - 1);
    }
  }

  lemma {:induction false} DistanceDominates(n: int, t: seq<int>, k: nat)
    requires n > 0 && k <= |t|
    requires forall j :: 0 <= j < |t| ==> t[j] >= 0
    ensures Misplaced(t, k) <= DistanceSum(n, t, k)
    ensures DistanceSum(n, t, k) == 0 <==> Misplaced(t, k) == 0
  {
    if k > 0 {
      DistanceDominates(n, t, k - 1);
      TileDistanceFacts(n, k - 1, t[k - 1]);
    }
  }

  /** manhattan >= hamming, and manhattan == 0 exactly when hamming == 0. */
  lemma ManhattanDominatesHamming(b: Board)
    requires b.Valid()
    ensures HammingOf(b) <= ManhattanOf(b)
    ensures ManhattanOf(b) == 0 <==> HammingOf(b) == 0
  {
    DistanceDominates(b.n, b.tiles, |b.tiles|);
  }

  // ---------------------------------------------------------------------
  // is_goal

  /** The solved board: 1, 2, ..., m - 1 followed by the blank. */
  function GoalTiles(m: nat): (t: seq<int>)
    ensures |t| == m
  {
    seq(m, i => if i < m - 1 then i + 1 else 0)
  }

  lemma {:induction false} NoneMisplaced(t: seq<int>, k: nat)
    requires k <= |t|
    ensures Misplaced(t, k) == 0 <==> forall i :: 0 <= i < k ==> t[i] == 0 || t[i] == i + 1
  {
    if k > 0 {
      NoneMisplaced(t, k - 1);
    }
  }

  /** hamming == 0 exactly when the board is the solved board. */
  lemma GoalIsSolvedBoard(b: Board)
    requires b.Valid()
    ensures HammingOf(b) == 0 <==> b.tiles == GoalTiles(|b.tiles|)
  {
    var t, m := b.tiles, |b.tiles|;
    NoneMisplaced(t, m);
    if HammingOf(b) == 0 {
      assert t[m - 1] == 0;
      forall i | 0 <= i < m
        ensures t[i] == GoalTiles(m)[i]
      {
        if i < m - 1 {
          assert t[i] != t[m - 1];
        }
      }
    }
  }

  /** Board::is_goal. */
  method IsGoal(b: Board) returns (goal: bool)
    requires b.Valid()
    ensures goal <==> HammingOf(b) == 0
    ensures goal <==> b.tiles == GoalTiles(|b.tiles|)
  {
    var h := Hamming(b);
    GoalIsSolvedBoard(b);
    goal := h == 0;
  }

  /** The board of the unit test, with tile 10 and the blank out of place,
      is not the goal. */
  lemma SampleBoardIsNotGoal()
    ensures HammingOf(Board(4, [1, 2, 3, 4, 5, 6, 7, 8, 9, 0, 11, 12, 13, 14, 15, 10])) != 0
  {
    var t := [1, 2, 3, 4, 5, 6, 7, 8, 9, 0, 11, 12, 13, 14, 15, 10];
    NoneMisplaced(t, 16);
    assert t[15] != 0 && t[15] != 16;
  }

  // ---------------------------------------------------------------------
  // equals

  /** The numbers string_representation prints: N, then the tiles row by row. */
  function Rendering(b: Board): seq<int> {
    [b.n] + b.tiles
  }

  /** Board::equals compares renderings; that is exactly board equality. */
  function Equals(b: Board, other: Board): (r: bool)
    ensures r <==> b == other
  {
    var x, y := Rendering(b), Rendering(other);
    assert x == y ==> x[0] == y[0] && x[1..] == y[1..];
    x == y
  }

  // ---------------------------------------------------------------------
  // neighbours

  function SwapTiles(t: seq<int>, i: int, j: int): (r: seq<int>)
    requires 0 <= i < |t| && 0 <= j < |t|
    ensures |r| == |t| && r[i] == t[j] && r[j] == t[i]
    ensures forall k :: 0 <= k < |t| && k != i && k != j ==> r[k] == t[k]
  {
    t[i := t[j]][j := t[i]]
  }

  lemma SwapPermutation(t: seq<int>, i: int, j: int)
    requires Permutation(t) && 0 <= i < |t| && 0 <= j < |t|
    ensures Permutation(SwapTiles(t, i, j))
  {
    var r := SwapTiles(t, i, j);
    forall x, y | 0 <= x < y < |r|
      ensures r[x] != r[y]
    {
      var x' := if x == i then j else if x == j then i else x;
      var y' := if y == i then j else if y == j then i else y;
      assert r[x] == t[x'] && r[y] == t[y'] && x' != y';
      if x' > y' {
        assert t[y'] != t[x'];
      }
    }
  }

  lemma SwapTwice(t: seq<int>, i: int, j: int)
    requires 0 <= i < |t| && 0 <= j < |t|
    ensures SwapTiles(SwapTiles(t, i, j), i, j) == t
    ensures SwapTiles(t, i, j) == SwapTiles(t, j, i)
  {
  }

  /** Positions p and q are orthogonally adjacent cells of the N×N grid:
      one row or one column apart, not both. */
  ghost predicate Adjacent(n: int, p: int, q: int)
    requires n > 0
  {
    0 <= p < n * n && 0 <= q < n * n && Abs(p / n - q / n) + Abs(p % n - q % n) == 1
  }

  /** c is b with its blank swapped with an orthogonally adjacent tile. */
  ghost predicate IsSlide(b: Board, c: Board)
    requires b.Valid()
  {
    c.n == b.n && exists q :: Adjacent(b.n, Blank(b), q) && c.tiles == SwapTiles(b.tiles, Blank(b), q)
  }

  function Slide(b: Board, p: int, q: int): Board
    requires 0 <= p < |b.tiles| && 0 <= q < |b.tiles|
  {
    Board(b.n, SwapTiles(b.tiles, p, q))
  }

  /** The cells around p that lie on the grid, for p in row row and column
      col (both counted from 1): the swaps neighbours() may make. */
  ghost predicate AroundOnGrid(b: Board, p: int, row: int, col: int) {
    && b.n > 0 && 0 <= p < |b.tiles|
    && (row > 1 ==> p - b.n >= 0) && (row < b.n ==> p + b.n < |b.tiles|)
    && (col > 1 ==> p - 1 >= 0) && (col < b.n ==> p + 1 < |b.tiles|)
  }

  /** The boards neighbours() collects for a blank at p in row row and
      column col: the tile above, below, left and right of it slid into
      the blank, in that order, each only when it is on the grid. */
  ghost function SlidesAt(b: Board, p: int, row: int, col: int): seq<Board>
    requires AroundOnGrid(b, p, row, col)
  {
    Up(b, p, row) + Down(b, p, row) + Left(b, p, col) + Right(b, p, col)
  }

  ghost function Up(b: Board, p: int, row: int): seq<Board>
    requires b.n > 0 && 0 <= p < |b.tiles| && (row > 1 ==> p - b.n >= 0)
  {
    if row > 1 then [Slide(b, p, p - b.n)] else []
  }

  ghost function Down(b: Board, p: int, row: int): seq<Board>
    requires b.n > 0 && 0 <= p < |b.tiles| && (row < b.n ==> p + b.n < |b.tiles|)
  {
    if row < b.n then [Slide(b, p, p + b.n)] else []
  }

  ghost function Left(b: Board, p: int, col: int): seq<Board>
    requires b.n > 0 && 0 <= p < |b.tiles| && (col > 1 ==> p - 1 >= 0)
  {
    if col > 1 then [Slide(b, p, p - 1)] else []
  }

  ghost function Right(b: Board, p: int, col: int): seq<Board>
    requires b.n > 0 && 0 <= p < |b.tiles| && (col < b.n ==> p + 1 < |b.tiles|)
  {
    if col < b.n then [Slide(b, p, p + 1)] else []
  }

  /** The boards neighbours() returns, in its order. */
  ghost function NeighbourList(b: Board): seq<Board>
    requires b.Valid()
  {
    var p, n := Blank(b), b.n;
    CellBounds(n, p, p / n + 1, p % n + 1);
    SlidesAt(b, p, p / n + 1, p % n + 1)
  }

  /** The index loop of neighbours() that locates the first blank
      (position 0 if there were none). */
  method FindBlank(b: Board) returns (index: int)
    requires b.Valid()
    ensures index == Blank(b)
  {
    index := 0;
    var i := 0;
    while i < b.n * b.n
      invariant 0 <= i <= b.n * b.n
      invariant forall k :: 0 <= k < i ==> b.tiles[k] != 0
    {
      if b.tiles[i] == 0 {
        index := i;
        break;
      }
      i := i + 1;
    }
  }

  /** Board::neighbours: finds the blank, then collects the slides around
      it, up, down, left and right, each only when it stays on the grid. */
  method Neighbours(b: Board) returns (neighbours: seq<Board>)
    requires b.Valid()
    ensures neighbours == NeighbourList(b)
  {
    var index := FindBlank(b);
    var row := index / b.n + 1;
    var col := index % b.n + 1;
    CellBounds(b.n, index, row, col);
    neighbours := [];
    if row > 1 {
      neighbours := neighbours + [Slide(b, index, index - b.n)];
    }
    assert neighbours == Up(b, index, row);
    if row < b.n {
      neighbours := neighbours + [Slide(b, index, index + b.n)];
    }
    assert neighbours == Up(b, index, row) + Down(b, index, row);
    if col > 1 {
      neighbours := neighbours + [Slide(b, index, index - 1)];
    }
    assert neighbours == Up(b, index, row) + Down(b, index, row) + Left(b, index, col);
    if col < b.n {
      neighbours := neighbours + [Slide(b, index, index + 1)];
    }
    assert neighbours == SlidesAt(b, index, row, col);
  }

  /** The blank of b, its row and column, and the cells around it. */
  lemma BlankAround(b: Board) returns (p: int, row: int, col: int)
    requires b.Valid()
    ensures p == Blank(b) && row == p / b.n + 1 && col == p % b.n + 1
    ensures AroundOnGrid(b, p, row, col) && NeighbourList(b) == SlidesAt(b, p, row, col)
    ensures 1 <= row <= b.n && 1 <= col <= b.n && b.n >= 2
  {
    p := Blank(b);
    row, col := p / b.n + 1, p % b.n + 1;
    CellBounds(b.n, p, row, col);
  }

  /** Each cell above, below, left or right of p that is on the grid is
      adjacent to p. */
  lemma AroundAdjacent(n: int, p: int, row: int, col: int, q: int)
    requires n > 0 && 0 <= p < n * n && row == p / n + 1 && col == p % n + 1
    requires || (row > 1 && q == p - n) || (row < n && q == p + n)
             || (col > 1 && q == p - 1) || (col < n && q == p + 1)
    ensures Adjacent(n, p, q)
  {
    GridFacts(n, p);
  }

  /** Conversely, each cell adjacent to p is one of those four. */
  lemma AdjacentAround(n: int, p: int, row: int, col: int, q: int)
    requires n > 0 && 0 <= p < n * n && row == p / n + 1 && col == p % n + 1
    requires Adjacent(n, p, q)
    ensures || (row > 1 && q == p - n) || (row < n && q == p + n)
            || (col > 1 && q == p - 1) || (col < n && q == p + 1)
  {
    RowBound(n, p);
    RowBound(n, q);
    var dr, dc := q / n - p / n, q % n - p % n;
    Offset(n, p, q);
    if dr == 1 {
      assert dr * n == n;
    } else if dr == -1 {
      assert dr * n == -n;
    }
  }

  /** The distance between two positions, split into rows and columns. */
  lemma Offset(n: int, p: int, q: int)
    requires n > 0
    ensures q - p == (q / n - p / n) * n + (q % n - p % n)
  {
    assert p == (p / n) * n + p % n;
    assert q == (q / n) * n + q % n;
    assert (q / n - p / n) * n == (q / n) * n - (p / n) * n;
  }

  /** A board of SlidesAt is the slide to one of the on-grid cells around p. */
  lemma SlidesAtCell(b: Board, p: int, row: int, col: int, c: Board) returns (q: int)
    requires AroundOnGrid(b, p, row, col) && c in SlidesAt(b, p, row, col)
    ensures || (row > 1 && q == p - b.n) || (row < b.n && q == p + b.n)
            || (col > 1 && q == p - 1) || (col < b.n && q == p + 1)
    ensures 0 <= q < |b.tiles| && c == Slide(b, p, q)
  {
    var up, down, left := Up(b, p, row), Down(b, p, row), Left(b, p, col);
    if c in up {
      q := p - b.n;
    } else if c in down {
      q := p + b.n;
    } else if c in left {
      q := p - 1;
    } else {
      assert c in up + down + left + Right(b, p, col);
      q := p + 1;
    }
  }

  /** Conversely, the slide to each on-grid cell around p is in SlidesAt. */
  lemma SlideInSlidesAt(b: Board, p: int, row: int, col: int, q: int)
    requires AroundOnGrid(b, p, row, col)
    requires || (row > 1 && q == p - b.n) || (row < b.n && q == p + b.n)
             || (col > 1 && q == p - 1) || (col < b.n && q == p + 1)
    ensures 0 <= q < |b.tiles| && Slide(b, p, q) in SlidesAt(b, p, row, col)
  {
    var up, down, left, right := Up(b, p, row), Down(b, p, row), Left(b, p, col), Right(b, p, col);
    if row > 1 && q == p - b.n {
      assert Slide(b, p, q) in up;
    } else if row < b.n && q == p + b.n {
      assert Slide(b, p, q) in down;
    } else if col > 1 && q == p - 1 {
      assert Slide(b, p, q) in left;
    } else {
      assert Slide(b, p, q) in right;
    }
  }

  /** For N >= 2 the blank always has 2, 3 or 4 neighbours. */
  lemma NeighbourCount(b: Board)
    requires b.Valid()
    ensures 2 <= |NeighbourList(b)| <= 4
  {
    var p, row, col := BlankAround(b);
  }

  /** Sliding a tile into the blank yields a valid board whose blank is where
      the tile was, and sliding it back restores the original board. */
  lemma SlideFacts(b: Board, q: int)
    requires b.Valid() && Adjacent(b.n, Blank(b), q)
    ensures Slide(b, Blank(b), q).Valid()
    ensures Blank(Slide(b, Blank(b), q)) == q
    ensures IsSlide(b, Slide(b, Blank(b), q))
    ensures IsSlide(Slide(b, Blank(b), q), b)
  {
    var p := Blank(b);
    var c := Slide(b, p, q);
    SwapPermutation(b.tiles, p, q);
    assert c.tiles[q] == 0;
    SwapTwice(b.tiles, p, q);
    assert Adjacent(b.n, q, p);
    assert c.tiles == SwapTiles(b.tiles, p, q);
    assert b.tiles == SwapTiles(c.tiles, q, p);
  }

  /** Every board neighbours() returns is the slide of an adjacent tile. */
  lemma NeighbourIsSlide(b: Board, c: Board) returns (q: int)
    requires b.Valid() && c in NeighbourList(b)
    ensures Adjacent(b.n, Blank(b), q) && c == Slide(b, Blank(b), q)
  {
    var p, row, col := BlankAround(b);
    q := SlidesAtCell(b, p, row, col, c);
    AroundAdjacent(b.n, p, row, col, q);
  }

  /** Every board neighbours() returns is a valid board one slide away. */
  lemma NeighboursAreSlides(b: Board)
    requires b.Valid()
    ensures forall c :: c in NeighbourList(b) ==> c.Valid() && IsSlide(b, c)
  {
    forall c | c in NeighbourList(b)
      ensures c.Valid() && IsSlide(b, c)
    {
      NeighbourSlide(b, c);
    }
  }

  /** One board neighbours() returns is a valid board one slide away. */
  lemma NeighbourSlide(b: Board, c: Board)
    requires b.Valid() && c in NeighbourList(b)
    ensures c.Valid() && IsSlide(b, c)
  {
    var q := NeighbourIsSlide(b, c);
    SlideFacts(b, q);
  }

  /** Every board neighbours() returns is a valid board. */
  lemma NeighboursValid(b: Board)
    requires b.Valid()
    ensures forall i :: 0 <= i < |NeighbourList(b)| ==> NeighbourList(b)[i].Valid()
  {
    NeighboursAreSlides(b);
    forall i | 0 <= i < |NeighbourList(b)|
      ensures NeighbourList(b)[i].Valid()
    {
      assert NeighbourList(b)[i] in NeighbourList(b);
    }
  }

  /** The original board is among the neighbours of each of its neighbours. */
  lemma NeighboursReversible(b: Board, c: Board)
    requires b.Valid() && c in NeighbourList(b)
    ensures c.Valid() && b in NeighbourList(c)
  {
    var q := NeighbourIsSlide(b, c);
    SlideFacts(b, q);
    SlidesAreNeighbours(c, b);
  }

  /** Slides of the blank at p to two different tiles give different
      boards: the first has its blank where the second has a tile. */
  lemma SlidesDiffer(b: Board, p: int, q: int, r: int)
    requires 0 <= p < |b.tiles| && 0 <= q < |b.tiles| && 0 <= r < |b.tiles|
    requires b.tiles[p] == 0 && b.tiles[q] != 0 && q != r && r != p
    ensures Slide(b, p, q) != Slide(b, p, r)
  {
    assert Slide(b, p, q).tiles[q] == 0;
    assert Slide(b, p, r).tiles[q] == b.tiles[q];
  }

  /** No element of s appears twice. */
  ghost predicate NoRepeats<T>(s: seq<T>) {
    forall i, j :: 0 <= i < j < |s| ==> s[i] != s[j]
  }

  /** s and t, each of at most one element, do not hold the same element. */
  ghost predicate Apart<T>(s: seq<T>, t: seq<T>) {
    |s| == 1 && |t| == 1 ==> s[0] != t[0]
  }

  /** Four pieces of at most one element each, pairwise apart, join into a
      list with no repeats. */
  lemma NoRepeatsPieces<T>(a: seq<T>, b: seq<T>, c: seq<T>, d: seq<T>)
    requires |a| <= 1 && |b| <= 1 && |c| <= 1 && |d| <= 1
    requires Apart(a, b) && Apart(a, c) && Apart(a, d)
    requires Apart(b, c) && Apart(b, d) && Apart(c, d)
    ensures NoRepeats(a + b + c + d)
  {
    var s := a + b + c + d;
    forall i, j | 0 <= i < j < |s|
      ensures s[i] != s[j]
    {
      var x := |a|;
      var y := x + |b|;
      var z := y + |c|;
      assert i < x ==> s[i] == a[0];
      assert x <= i < y ==> s[i] == b[0];
      assert y <= i < z ==> s[i] == c[0];
      assert x <= j < y ==> s[j] == b[0];
      assert y <= j < z ==> s[j] == c[0];
      assert z <= j ==> s[j] == d[0];
    }
  }

  /** SlidesAt never lists a board twice when every cell but p holds a tile. */
  lemma SlidesAtDistinct(b: Board, p: int, row: int, col: int)
    requires AroundOnGrid(b, p, row, col) && b.n >= 2 && b.tiles[p] == 0
    requires forall k :: 0 <= k < |b.tiles| && k != p ==> b.tiles[k] != 0
    ensures NoRepeats(SlidesAt(b, p, row, col))
  {
    if row > 1 && row < b.n { SlidesDiffer(b, p, p - b.n, p + b.n); }
    if row > 1 && col > 1 { SlidesDiffer(b, p, p - b.n, p - 1); }
    if row > 1 && col < b.n { SlidesDiffer(b, p, p - b.n, p + 1); }
    if row < b.n && col > 1 { SlidesDiffer(b, p, p + b.n, p - 1); }
    if row < b.n && col < b.n { SlidesDiffer(b, p, p + b.n, p + 1); }
    if col > 1 && col < b.n { SlidesDiffer(b, p, p - 1, p + 1); }
    NoRepeatsPieces(Up(b, p, row), Down(b, p, row), Left(b, p, col), Right(b, p, col));
  }

  /** neighbours() never returns the same board twice: each moves the blank
      to a different cell. */
  lemma NeighboursDistinct(b: Board)
    requires b.Valid()
    ensures forall i, j :: 0 <= i < j < |NeighbourList(b)| ==> NeighbourList(b)[i] != NeighbourList(b)[j]
  {
    var p, row, col := BlankAround(b);
    SlidesAtDistinct(b, p, row, col);
  }

  /** Conversely, every one-slide move of b is among neighbours(). */
  lemma SlidesAreNeighbours(b: Board, c: Board)
    requires b.Valid() && IsSlide(b, c)
    ensures c in NeighbourList(b)
  {
    var p, row, col := BlankAround(b);
    var q :| Adjacent(b.n, p, q) && c.tiles == SwapTiles(b.tiles, p, q);
    AdjacentAround(b.n, p, row, col, q);
    SlideInSlidesAt(b, p, row, col, q);
    assert c == Slide(b, p, q);
  }

  // ---------------------------------------------------------------------
  // twin

  ghost predicate IsFirstTile(t: seq<int>, i: int) {
    0 <= i < |t| && t[i] != 0 && forall k :: 0 <= k < i ==> t[k] == 0
  }

  ghost predicate IsLastTile(t: seq<int>, j: int) {
    0 <= j < |t| && t[j] != 0 && forall k :: j < k < |t| ==> t[k] == 0
  }

  /** The first non-blank position; with one blank it is 0 or 1. */
  ghost function FirstTile(b: Board): (i: nat)
    requires b.Valid()
    ensures IsFirstTile(b.tiles, i) && i <= 1
  {
    assert b.tiles[0] != b.tiles[1];
    if b.tiles[0] != 0 then 0 else 1
  }

  /** The last non-blank position; with one blank it is N² - 1 or N² - 2. */
  ghost function LastTile(b: Board): (j: nat)
    requires b.Valid()
    ensures IsLastTile(b.tiles, j) && j >= |b.tiles| - 2
  {
    var m := |b.tiles|;
    assert b.tiles[m - 1] != b.tiles[m - 2];
    if b.tiles[m - 1] != 0 then m - 1 else m - 2
  }

  /** The board twin() returns: first and last non-blank tiles exchanged. */
  ghost function TwinOf(b: Board): Board
    requires b.Valid()
  {
    Slide(b, FirstTile(b), LastTile(b))
  }

  /** Board::twin. */
  method Twin(b: Board) returns (twin: Board)
    requires b.Valid()
    ensures twin == TwinOf(b)
  {
    var twinTiles := b.tiles;
    var i := 0;
    var j := |twinTiles| - 1;
    while twinTiles[i] == 0
      invariant 0 <= i <= FirstTile(b)
      decreases FirstTile(b) - i
      invariant forall k :: 0 <= k < i ==> twinTiles[k] == 0
    {
      i := i + 1;
    }
    while twinTiles[j] == 0
      invariant LastTile(b) <= j < |twinTiles|
      decreases j - LastTile(b)
      invariant forall k :: j < k < |twinTiles| ==> twinTiles[k] == 0
    {
      j := j - 1;
    }
    twinTiles := SwapTiles(twinTiles, i, j);
    twin := Board(b.n, twinTiles);
  }

  /** The twin is a valid board that differs from b in exactly the two
      swapped positions, both non-blank, and keeps the blank in place. */
  lemma TwinIsTransposition(b: Board)
    requires b.Valid()
    ensures TwinOf(b).Valid()
    ensures FirstTile(b) < LastTile(b)
    ensures forall k :: 0 <= k < |b.tiles| ==>
      (TwinOf(b).tiles[k] != b.tiles[k] <==> k == FirstTile(b) || k == LastTile(b))
    ensures Blank(TwinOf(b)) == Blank(b)
  {
    var i, j := FirstTile(b), LastTile(b);
    SwapPermutation(b.tiles, i, j);
    assert b.tiles[i] != b.tiles[j];
  }

  /** twin(twin(b)) == b. */
  lemma TwinInvolution(b: Board)
    requires b.Valid()
    ensures TwinOf(TwinOf(b)) == b
  {
    var c := TwinOf(b);
    var i, j := FirstTile(b), LastTile(b);
    TwinIsTransposition(b);
    assert c.tiles[0] == 0 <==> b.tiles[0] == 0;
    var m := |b.tiles|;
    assert c.tiles[m - 1] == 0 <==> b.tiles[m - 1] == 0;
    assert FirstTile(c) == i && LastTile(c) == j;
    SwapTwice(b.tiles, i, j);
  }
}
