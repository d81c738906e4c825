/** The perimeter score (`PerimeterGoal.score` of goal.py): the target-coloured
    unit cells on the outer boundary of the raster, with the four corner
    checks worth 2 points each and the other boundary cells worth 1. */
module Perimeter {
  import opened Blocks
  import opened Raster

  /** Python's slice s[1:-1]: s without its first and last element, and empty
      when s has fewer than two elements. */
  function Interior<T>(s: seq<T>): seq<T>
  {
    if |s| >= 2 then s[1..|s| - 1] else []
  }

  function Matches(c: Colour, target: Colour): nat
  {
    if c == target then 1 else 0
  }

  /** The number of elements of s equal to target. */
  function Count(s: seq<Colour>, target: Colour): nat
    decreases |s|
  {
    if s == [] then 0 else Count(s[..|s| - 1], target) + Matches(s[|s| - 1], target)
  }

  lemma {:induction false} CountConcat(a: seq<Colour>, b: seq<Colour>, target: Colour)
    ensures Count(a + b, target) == Count(a, target) + Count(b, target)
    decreases |b|
  {
    if b != [] {
      assert (a + b)[..|a + b| - 1] == a + b[..|b| - 1];
      CountConcat(a, b[..|b| - 1], target);
    } else {
      assert a + b == a;
    }
  }

  lemma {:induction false} CountUniform(s: seq<Colour>, target: Colour)
    requires forall k :: 0 <= k < |s| ==> s[k] == target
    ensures Count(s, target) == |s|
    decreases |s|
  {
    if s != [] {
      CountUniform(s[..|s| - 1], target);
    }
  }

  lemma {:induction false} CountAbsent(s: seq<Colour>, target: Colour)
    requires forall k :: 0 <= k < |s| ==> s[k] != target
    ensures Count(s, target) == 0
    decreases |s|
  {
    if s != [] {
      CountAbsent(s[..|s| - 1], target);
    }
  }

  /** How many of the four corner tests of an n-by-n grid (column 0 row 0,
      column 0 last row, last column row 0, last column last row) look at the
      cell in column i, row j. On a 1-by-1 grid all four look at one cell. */
  function CornerChecks(n: int, i: int, j: int): nat
  {
    (if i == 0 && j == 0 then 1 else 0) +
    (if i == 0 && j == n - 1 then 1 else 0) +
    (if i == n - 1 && j == 0 then 1 else 0) +
    (if i == n - 1 && j == n - 1 then 1 else 0)
  }

  /** The points a target-coloured cell in column i, row j of an n-by-n grid
      earns: 2 per corner test that looks at it, 1 on the rest of the
      boundary, 0 inside. */
  function Weight(n: int, i: int, j: int): nat
  {
    if CornerChecks(n, i, j) > 0 then 2 * CornerChecks(n, i, j)
    else if i == 0 || i == n - 1 || j == 0 || j == n - 1 then 1
    else 0
  }

  /** Points of rows 0 .. m-1 of column i. */
  function ColumnPoints(col: seq<Colour>, target: Colour, n: int, i: int, m: nat): nat
    requires m <= |col|
  {
    if m == 0 then 0
    else ColumnPoints(col, target, n, i, m - 1) + Weight(n, i, m - 1) * Matches(col[m - 1], target)
  }

  /** Points of columns 0 .. m-1 of grid g. */
  function GridPoints(g: Grid, target: Colour, m: nat): nat
    requires m <= |g|
  {
    if m == 0 then 0
    else GridPoints(g, target, m - 1) + ColumnPoints(g[m - 1], target, |g|, m - 1, |g[m - 1]|)
  }

  ghost predicate Square(g: Grid)
  {
    |g| >= 1 && forall i :: 0 <= i < |g| ==> |g[i]| == |g|
  }

  /** The perimeter score of a square grid: the sum over all its cells of the
      cell's weight, when the cell has the target colour. */
  function PerimeterPoints(g: Grid, target: Colour): nat
  {
    GridPoints(g, target, |g|)
  }

  /** What the scan of the code adds up: the four corner tests at 2 points
      each, the interior of the first and of the last column, and the first
      and last cell of each of columns 1 .. m-1. */
  function CornerPoints(g: Grid, target: Colour): nat
    requires Square(g)
  {
    var n := |g|;
    2 * Matches(g[0][0], target) + 2 * Matches(g[0][n - 1], target) +
    2 * Matches(g[n - 1][0], target) + 2 * Matches(g[n - 1][n - 1], target)
  }

  function SidePoints(g: Grid, target: Colour, m: nat): nat
    requires Square(g) && m <= |g|
  {
    if m <= 1 then 0
    else SidePoints(g, target, m - 1) + Matches(g[m - 1][0], target) + Matches(g[m - 1][|g| - 1], target)
  }

  lemma {:induction false} EdgeColumnPrefix(col: seq<Colour>, target: Colour, n: int, i: int, m: nat)
    requires n >= 2 && |col| == n && (i == 0 || i == n - 1)
    requires 1 <= m <= n - 1
    ensures ColumnPoints(col, target, n, i, m) == 2 * Matches(col[0], target) + Count(col[1..m], target)
  {
    if m > 1 {
      EdgeColumnPrefix(col, target, n, i, m - 1);
      assert col[1..m][..m - 2] == col[1..m - 1];
    }
  }

  /** A first or last column is worth its two corner cells twice and its
      interior once. */
  lemma EdgeColumn(col: seq<Colour>, target: Colour, n: int, i: int)
    requires n >= 2 && |col| == n && (i == 0 || i == n - 1)
    ensures ColumnPoints(col, target, n, i, n) ==
      2 * Matches(col[0], target) + 2 * Matches(col[n - 1], target) + Count(Interior(col), target)
  {
    EdgeColumnPrefix(col, target, n, i, n - 1);
  }

  lemma {:induction false} MiddleColumnPrefix(col: seq<Colour>, target: Colour, n: int, i: int, m: nat)
    requires |col| == n && 0 < i < n - 1
    requires 1 <= m <= n - 1
    ensures ColumnPoints(col, target, n, i, m) == Matches(col[0], target)
  {
    if m > 1 {
      MiddleColumnPrefix(col, target, n, i, m - 1);
    }
  }

  /** A column strictly between the first and the last is worth its first and
      last cell once each. */
  lemma MiddleColumn(col: seq<Colour>, target: Colour, n: int, i: int)
    requires |col| == n && 0 < i < n - 1
    ensures ColumnPoints(col, target, n, i, n) == Matches(col[0], target) + Matches(col[n - 1], target)
  {
    MiddleColumnPrefix(col, target, n, i, n - 1);
  }

  lemma {:induction false} GridPrefix(g: Grid, target: Colour, m: nat)
    requires Square(g) && |g| >= 2 && 1 <= m <= |g| - 1
    ensures GridPoints(g, target, m) ==
      ColumnPoints(g[0], target, |g|, 0, |g|) + SidePoints(g, target, m)
  {
    if m > 1 {
      GridPrefix(g, target, m - 1);
      MiddleColumn(g[m - 1], target, |g|, m - 1);
    }
  }

  /** The weighted sum over all cells equals what the boundary scan adds up. */
  lemma PerimeterDecomposition(g: Grid, target: Colour)
    requires Square(g)
    ensures PerimeterPoints(g, target) ==
      CornerPoints(g, target) + Count(Interior(g[0]), target) + Count(Interior(g[|g| - 1]), target)
      + SidePoints(g, target, if |g| >= 2 then |g| - 1 else 1)
  {
    var n := |g|;
    if n == 1 {
      assert |g[0]| == 1;
      assert GridPoints(g, target, 1) == ColumnPoints(g[0], target, 1, 0, 1);
      assert ColumnPoints(g[0], target, 1, 0, 1) == 8 * Matches(g[0][0], target);
    } else {
      assert |g[n - 1]| == n;
      GridPrefix(g, target, n - 1);
      EdgeColumn(g[0], target, n, 0);
      EdgeColumn(g[n - 1], target, n, n - 1);
    }
  }

  lemma {:induction false} SidesUniform(g: Grid, target: Colour, m: nat)
    requires Square(g) && m <= |g|
    requires forall i, j :: 0 <= i < |g| && 0 <= j < |g| ==> g[i][j] == target
    ensures SidePoints(g, target, m) == if m <= 1 then 0 else 2 * (m - 1)
  {
    if m > 1 {
      SidesUniform(g, target, m - 1);
    }
  }

  lemma {:induction false} SidesAbsent(g: Grid, target: Colour, m: nat)
    requires Square(g) && m <= |g|
    requires forall i, j :: 0 <= i < |g| && 0 <= j < |g| ==> g[i][j] != target
    ensures SidePoints(g, target, m) == 0
  {
    if m > 1 {
      SidesAbsent(g, target, m - 1);
    }
  }

  /** A uniform target-coloured grid of side n >= 2 scores 4n. */
  lemma PerimeterUniform(g: Grid, target: Colour)
    requires Square(g) && |g| >= 2
    requires forall i, j :: 0 <= i < |g| && 0 <= j < |g| ==> g[i][j] == target
    ensures PerimeterPoints(g, target) == 4 * |g|
  {
    var n := |g|;
    PerimeterDecomposition(g, target);
    CountUniform(Interior(g[0]), target);
    CountUniform(Interior(g[n - 1]), target);
    SidesUniform(g, target, n - 1);
  }

  /** On a 1-by-1 grid the single cell is looked at by all four corner tests:
      it scores 8 when it has the target colour. */
  lemma PerimeterSingleCell(g: Grid, target: Colour)
    requires Square(g) && |g| == 1
    ensures PerimeterPoints(g, target) == 8 * Matches(g[0][0], target)
  {
    PerimeterDecomposition(g, target);
  }

  /** A grid without the target colour scores 0. */
  lemma PerimeterAbsent(g: Grid, target: Colour)
    requires Square(g)
    requires forall i, j :: 0 <= i < |g| && 0 <= j < |g| ==> g[i][j] != target
    ensures PerimeterPoints(g, target) == 0
  {
    var n := |g|;
    PerimeterDecomposition(g, target);
    CountAbsent(Interior(g[0]), target);
    CountAbsent(Interior(g[n - 1]), target);
    SidesAbsent(g, target, if n >= 2 then n - 1 else 1);
  }

  /** Cells off the boundary never count: two square grids that agree on
      every boundary cell score the same. */
  lemma PerimeterIgnoresInside(g: Grid, h: Grid, target: Colour)
    requires Square(g) && Square(h) && |g| == |h|
    requires forall i, j :: 0 <= i < |g| && 0 <= j < |g| && Weight(|g|, i, j) > 0 ==> g[i][j] == h[i][j]
    ensures PerimeterPoints(g, target) == PerimeterPoints(h, target)
  {
    var n := |g|;
    forall i | 0 <= i < n ensures ColumnPoints(g[i], target, n, i, n) == ColumnPoints(h[i], target, n, i, n) {
      ColumnsAgree(g[i], h[i], target, n, i, n);
    }
    GridsAgree(g, h, target, n);
  }

  lemma {:induction false} ColumnsAgree(a: seq<Colour>, b: seq<Colour>, target: Colour, n: int, i: int, m: nat)
    requires m <= |a| && m <= |b|
    requires forall j :: 0 <= j < m && Weight(n, i, j) > 0 ==> a[j] == b[j]
    ensures ColumnPoints(a, target, n, i, m) == ColumnPoints(b, target, n, i, m)
  {
    if m > 0 {
      ColumnsAgree(a, b, target, n, i, m - 1);
    }
  }

  lemma {:induction false} GridsAgree(g: Grid, h: Grid, target: Colour, m: nat)
    requires m <= |g| == |h|
    requires forall i :: 0 <= i < m ==> |g[i]| == |h[i]| == |g|
    requires forall i :: 0 <= i < m ==> ColumnPoints(g[i], target, |g|, i, |g|) == ColumnPoints(h[i], target, |h|, i, |h|)
    ensures GridPoints(g, target, m) == GridPoints(h, target, m)
  {
    if m > 0 {
      GridsAgree(g, h, target, m - 1);
    }
  }

  /** The boundary list of `PerimeterGoal.score`: the interior of the first
      and of the last column, then the first and last cell of each column
      strictly between them. */
  method BoundaryCells(flat: Grid, target: Colour) returns (perimeter: seq<Colour>)
    requires Square(flat)
    ensures Count(perimeter, target) == Count(Interior(flat[0]), target)
      + Count(Interior(flat[|flat| - 1]), target)
      + SidePoints(flat, target, if |flat| >= 2 then |flat| - 1 else 1)
  {
    var n := |flat|;
    perimeter := [];
    perimeter := perimeter + Interior(flat[0]);
    perimeter := perimeter + Interior(flat[n - 1]);
    assert perimeter == Interior(flat[0]) + Interior(flat[n - 1]);
    CountConcat(Interior(flat[0]), Interior(flat[n - 1]), target);
    var i := 1;
    while i < n - 1
      invariant 1 <= i <= (if n >= 2 then n - 1 else 1)
      invariant Count(perimeter, target) ==
        Count(Interior(flat[0]), target) + Count(Interior(flat[n - 1]), target) + SidePoints(flat, target, i)
    {
      var first, last := flat[i][0], flat[i][n - 1];
      CountConcat(perimeter, [first], target);
      perimeter := perimeter + [first];
      CountConcat(perimeter, [last], target);
      perimeter := perimeter + [last];
      i := i + 1;
    }
  }

  /** The counting loop of `PerimeterGoal.score`: one point per element of
      the list with the target colour, on top of what the corners gave. */
  method CountMatches(perimeter: seq<Colour>, target: Colour, start: int) returns (score: int)
    ensures score == start + Count(perimeter, target)
  {
    score := start;
    var k := 0;
    while k < |perimeter|
      invariant 0 <= k <= |perimeter|
      invariant score == start + Count(perimeter[..k], target)
    {
      assert perimeter[..k + 1][..k] == perimeter[..k];
      if perimeter[k] == target {
        score := score + 1;
      }
      k := k + 1;
    }
    assert perimeter[..k] == perimeter;
  }

  /** `PerimeterGoal.score` on a rasterised board. */
  method GridScore(target: Colour, flat: Grid) returns (score: int)
    requires Square(flat)
    ensures score == PerimeterPoints(flat, target)
  {
    var n := |flat|;
    score := 0;
    var perimeter := BoundaryCells(flat, target);
    if flat[0][0] == target {
      score := score + 2;
    }
    if flat[0][n - 1] == target {
      score := score + 2;
    }
    if flat[n - 1][0] == target {
      score := score + 2;
    }
    if flat[n - 1][n - 1] == target {
      score := score + 2;
    }
    assert score == CornerPoints(flat, target);
    score := CountMatches(perimeter, target, score);
    PerimeterDecomposition(flat, target);
  }

  /** `PerimeterGoal.score`: rasterise the board, then score its boundary. */
  method PerimeterScore(target: Colour, board: Block) returns (score: int)
    requires WellFormed(board)
    ensures score == PerimeterPoints(GridOf(board), target)
  {
    var flat := Flatten(board);
    score := GridScore(target, flat);
  }
}
