/**
 * The grid-relaxation engine.
 *
 * A grid of n rows and m columns is relaxed by sweeps: every cell that is not a
 * pinned source takes the value of a caller-supplied five-argument update rule
 * applied to its centre and its right, up, left and down neighbours. Borders
 * either wrap around (cyclic) or contribute 0 (bounded). A sweep works in place
 * in row-major order, so a cell reads the values that earlier cells of the same
 * sweep have already written. The driver repeats sweeps until the change of the
 * grid total drops below a tolerance or an iteration cap is passed.
 *
 * Cell values are mathematical reals: the rounding of C doubles is not modelled.
 */
module Calculator {

  /** A pinned cell: row x, column y and its fixed value. */
  datatype SourcePoint = SourcePoint(x: int, y: int, value: real)

  /** A grid as a value: a sequence of rows. */
  type Grid = seq<seq<real>>

  /** The update rule, called as (centre, right, up, left, down). */
  type Update = (real, real, real, real, real) -> real

  /** Everything a sweep depends on besides the grid itself. */
  datatype Setup = Setup(f: Update, n: nat, m: nat, sources: seq<SourcePoint>, isCyclic: int)

  /** The border mode flag counts as cyclic when it is at least TRUE. */
  const TRUE := 1

  predicate IsGrid(g: Grid, n: nat, m: nat)
  {
    |g| == n && forall r :: 0 <= r < n ==> |g[r]| == m
  }

  // ---------------------------------------------------------------- sources

  /** Some entry of the source list sits at row x, column y. */
  predicate SourceAt(sources: seq<SourcePoint>, x: int, y: int)
  {
    exists k :: 0 <= k < |sources| && sources[k].x == x && sources[k].y == y
  }

  /** The coordinates the source list names, forgetting order, repetitions and values. */
  function Coords(sources: seq<SourcePoint>): set<(int, int)>
  {
    set k | 0 <= k < |sources| :: (sources[k].x, sources[k].y)
  }

  /** The linear search of the source list, stopping at the first match. */
  method IsSource(sources: seq<SourcePoint>, x: int, y: int) returns (r: bool)
    ensures r == SourceAt(sources, x, y)
  {
    var i := 0;
    while i < |sources|
      invariant 0 <= i <= |sources|
      invariant forall k :: 0 <= k < i ==> !(sources[k].x == x && sources[k].y == y)
    {
      if sources[i].x == x && sources[i].y == y {
        return true;
      }
      i := i + 1;
    }
    return false;
  }

  /** Being a source depends only on the set of listed coordinates. */
  lemma SourceAtCoords(sources: seq<SourcePoint>, x: int, y: int)
    ensures SourceAt(sources, x, y) <==> (x, y) in Coords(sources)
  {
    if (x, y) in Coords(sources) {
      var k :| 0 <= k < |sources| && (sources[k].x, sources[k].y) == (x, y);
      assert sources[k].x == x && sources[k].y == y;
    }
  }

  /** Reordering, repeating or dropping duplicate entries of the list does not change which cells are sources. */
  lemma SourceOrderIrrelevant(s1: seq<SourcePoint>, s2: seq<SourcePoint>, x: int, y: int)
    requires Coords(s1) == Coords(s2)
    ensures SourceAt(s1, x, y) == SourceAt(s2, x, y)
  {
    SourceAtCoords(s1, x, y);
    SourceAtCoords(s2, x, y);
  }

  // ------------------------------------------------------------- neighbours

  /** Reducing a number below twice the modulus takes off at most one modulus. */
  lemma ModOnce(a: int, n: int)
    requires 0 < n && 0 <= a < 2 * n
    ensures a % n == if a < n then a else a - n
  {
    if a >= n {
      var q, r := a / n, a % n;
      assert a == q * n + r;
      assert q <= 0 ==> q * n <= 0;
      assert q >= 2 ==> q * n >= 2 * n;
    }
  }

  /** The right neighbour of (i, j): column j + 1, wrapping to column 0 or reading 0 past the last column. */
  function Right(g: Grid, n: nat, m: nat, isCyclic: int, i: int, j: int): (v: real)
    requires IsGrid(g, n, m) && 0 <= i < n && 0 <= j < m
    ensures j + 1 < m ==> v == g[i][j + 1]
    ensures j == m - 1 && isCyclic >= TRUE ==> v == g[i][0]
    ensures j == m - 1 && isCyclic < TRUE ==> v == 0.0
  {
    if isCyclic >= TRUE || j + 1 < m then ModOnce(j + 1, m); g[i][(j + 1) % m] else 0.0
  }

  /** The left neighbour of (i, j): column j - 1, wrapping to column m - 1 or reading 0 before column 0. */
  function Left(g: Grid, n: nat, m: nat, isCyclic: int, i: int, j: int): (v: real)
    requires IsGrid(g, n, m) && 0 <= i < n && 0 <= j < m
    ensures 0 < j ==> v == g[i][j - 1]
    ensures j == 0 && isCyclic >= TRUE ==> v == g[i][m - 1]
    ensures j == 0 && isCyclic < TRUE ==> v == 0.0
  {
    if isCyclic >= TRUE || j - 1 >= 0 then ModOnce(j - 1 + m, m); g[i][(j - 1 + m) % m] else 0.0
  }

  /** The neighbour below (i, j): row i + 1, wrapping to row 0 or reading 0 past the last row. */
  function Down(g: Grid, n: nat, m: nat, isCyclic: int, i: int, j: int): (v: real)
    requires IsGrid(g, n, m) && 0 <= i < n && 0 <= j < m
    ensures i + 1 < n ==> v == g[i + 1][j]
    ensures i == n - 1 && isCyclic >= TRUE ==> v == g[0][j]
    ensures i == n - 1 && isCyclic < TRUE ==> v == 0.0
  {
    if isCyclic >= TRUE || i + 1 < n then ModOnce(i + 1, n); g[(i + 1) % n][j] else 0.0
  }

  /** The neighbour above (i, j): row i - 1, wrapping to row n - 1 or reading 0 above row 0. */
  function Up(g: Grid, n: nat, m: nat, isCyclic: int, i: int, j: int): (v: real)
    requires IsGrid(g, n, m) && 0 <= i < n && 0 <= j < m
    ensures 0 < i ==> v == g[i - 1][j]
    ensures i == 0 && isCyclic >= TRUE ==> v == g[n - 1][j]
    ensures i == 0 && isCyclic < TRUE ==> v == 0.0
  {
    if isCyclic >= TRUE || i - 1 >= 0 then ModOnce(i - 1 + n, n); g[(i - 1 + n) % n][j] else 0.0
  }

  /**
   * In cyclic mode neighbours undo each other across the seams too: the cell above the one
   * below (i, j) is (i, j), and so are the cell below the one above, the left of the right
   * and the right of the left.
   */
  lemma CyclicNeighboursInverse(g: Grid, n: nat, m: nat, i: int, j: int)
    requires IsGrid(g, n, m) && 0 <= i < n && 0 <= j < m
    ensures Up(g, n, m, TRUE, (i + 1) % n, j) == g[i][j]
    ensures Down(g, n, m, TRUE, (i + n - 1) % n, j) == g[i][j]
    ensures Left(g, n, m, TRUE, i, (j + 1) % m) == g[i][j]
    ensures Right(g, n, m, TRUE, i, (j + m - 1) % m) == g[i][j]
  {
    ModOnce(i + 1, n);
    ModOnce(i + n - 1, n);
    ModOnce(j + 1, m);
    ModOnce(j + m - 1, m);
  }

  // ---------------------------------------------------------------- a sweep

  /** The update rule applied to (i, j) with its neighbours read from h. */
  function Relax(s: Setup, h: Grid, i: int, j: int): real
    requires IsGrid(h, s.n, s.m) && 0 <= i < s.n && 0 <= j < s.m
  {
    s.f(h[i][j], Right(h, s.n, s.m, s.isCyclic, i, j), Up(h, s.n, s.m, s.isCyclic, i, j),
        Left(h, s.n, s.m, s.isCyclic, i, j), Down(h, s.n, s.m, s.isCyclic, i, j))
  }

  /** One visit of the sweep: a source cell is not written, any other cell takes its relaxed value. */
  function StepCell(s: Setup, h: Grid, i: int, j: int): (h': Grid)
    requires IsGrid(h, s.n, s.m) && 0 <= i < s.n && 0 <= j < s.m
    ensures IsGrid(h', s.n, s.m)
  {
    if SourceAt(s.sources, i, j) then h else h[i := h[i][j := Relax(s, h, i, j)]]
  }

  /** Cell (p, q) comes before cell (i, j) in row-major order. */
  predicate Before(p: int, q: int, i: int, j: int)
  {
    p < i || (p == i && q < j)
  }

  /** (i, j) is a position of a sweep over n rows of m cells; (n, 0) is its end. */
  predicate InSweep(n: nat, m: nat, i: int, j: int)
  {
    0 <= i <= n && 0 <= j <= m && (i == n ==> j == 0)
  }

  /** The grid once the sweep has visited exactly the cells before (i, j), in row-major order. */
  function Visit(s: Setup, g: Grid, i: int, j: int): (h: Grid)
    requires IsGrid(g, s.n, s.m) && InSweep(s.n, s.m, i, j)
    ensures IsGrid(h, s.n, s.m)
    decreases i, j
  {
    if j > 0 then StepCell(s, Visit(s, g, i, j - 1), i, j - 1)
    else if i > 0 then Visit(s, g, i - 1, s.m)
    else g
  }

  /** The grid after one full sweep. */
  function Sweep(s: Setup, g: Grid): (h: Grid)
    requires IsGrid(g, s.n, s.m)
    ensures IsGrid(h, s.n, s.m)
  {
    Visit(s, g, s.n, 0)
  }

  /** A cell the sweep has not reached still holds its value from before the sweep. */
  lemma {:induction false} VisitUnvisited(s: Setup, g: Grid, i: int, j: int, p: int, q: int)
    requires IsGrid(g, s.n, s.m) && InSweep(s.n, s.m, i, j)
    requires 0 <= p < s.n && 0 <= q < s.m && !Before(p, q, i, j)
    ensures Visit(s, g, i, j)[p][q] == g[p][q]
    decreases i, j
  {
    if j > 0 {
      VisitUnvisited(s, g, i, j - 1, p, q);
    } else if i > 0 {
      VisitUnvisited(s, g, i - 1, s.m, p, q);
    }
  }

  /** A cell the sweep has visited is never written again later in the same sweep. */
  lemma {:induction false} VisitStable(s: Setup, g: Grid, i: int, j: int, i': int, j': int, p: int, q: int)
    requires IsGrid(g, s.n, s.m) && InSweep(s.n, s.m, i, j) && InSweep(s.n, s.m, i', j')
    requires !Before(i', j', i, j)
    requires 0 <= p < s.n && 0 <= q < s.m && Before(p, q, i, j)
    ensures Visit(s, g, i', j')[p][q] == Visit(s, g, i, j)[p][q]
    decreases i', j'
  {
    if i' == i && j' == j {
    } else if j' > 0 {
      VisitStable(s, g, i, j, i', j' - 1, p, q);
    } else {
      VisitStable(s, g, i, j, i' - 1, s.m, p, q);
    }
  }

  /** Part-way through a sweep, a visited cell already holds its final value and every other cell its old value. */
  lemma VisitMixed(s: Setup, g: Grid, i: int, j: int, p: int, q: int)
    requires IsGrid(g, s.n, s.m) && InSweep(s.n, s.m, i, j) && 0 <= p < s.n && 0 <= q < s.m
    ensures Visit(s, g, i, j)[p][q] == if Before(p, q, i, j) then Sweep(s, g)[p][q] else g[p][q]
  {
    if Before(p, q, i, j) {
      VisitStable(s, g, i, j, s.n, 0, p, q);
    } else {
      VisitUnvisited(s, g, i, j, p, q);
    }
  }

  /**
   * What the sweep writes at (i, j): a source keeps its value; any other cell gets the update
   * rule of its old value and the neighbours as the grid stands when the sweep reaches it.
   */
  lemma SweepCell(s: Setup, g: Grid, i: int, j: int)
    requires IsGrid(g, s.n, s.m) && 0 <= i < s.n && 0 <= j < s.m
    ensures SourceAt(s.sources, i, j) ==> Sweep(s, g)[i][j] == g[i][j]
    ensures !SourceAt(s.sources, i, j) ==>
      var h := Visit(s, g, i, j);
      Sweep(s, g)[i][j] == s.f(g[i][j], Right(h, s.n, s.m, s.isCyclic, i, j), Up(h, s.n, s.m, s.isCyclic, i, j),
                               Left(h, s.n, s.m, s.isCyclic, i, j), Down(h, s.n, s.m, s.isCyclic, i, j))
  {
    VisitStable(s, g, i, j + 1, s.n, 0, i, j);
    VisitUnvisited(s, g, i, j, i, j);
  }

  /**
   * The Gauss-Seidel order: when the sweep reaches (i, j), the cells above and to the left
   * already hold this sweep's values, the cells below and to the right still hold the old ones;
   * across a cyclic seam the right neighbour of the last column and the down neighbour of the
   * last row are already new, the left neighbour of column 0 and the up neighbour of row 0 old.
   */
  lemma NeighboursWhenVisited(s: Setup, g: Grid, i: int, j: int)
    requires IsGrid(g, s.n, s.m) && 0 <= i < s.n && 0 <= j < s.m
    ensures var h := Visit(s, g, i, j); var n, m, c := s.n, s.m, s.isCyclic;
      && (0 < i ==> Up(h, n, m, c, i, j) == Sweep(s, g)[i - 1][j])
      && (0 < j ==> Left(h, n, m, c, i, j) == Sweep(s, g)[i][j - 1])
      && (i + 1 < n ==> Down(h, n, m, c, i, j) == g[i + 1][j])
      && (j + 1 < m ==> Right(h, n, m, c, i, j) == g[i][j + 1])
      && (c >= TRUE && i == 0 ==> Up(h, n, m, c, i, j) == g[n - 1][j])
      && (c >= TRUE && j == 0 ==> Left(h, n, m, c, i, j) == g[i][m - 1])
      && (c >= TRUE && i == n - 1 && 0 < i ==> Down(h, n, m, c, i, j) == Sweep(s, g)[0][j])
      && (c >= TRUE && j == m - 1 && 0 < j ==> Right(h, n, m, c, i, j) == Sweep(s, g)[i][0])
  {
    if 0 < i { VisitMixed(s, g, i, j, i - 1, j); }
    if 0 < j { VisitMixed(s, g, i, j, i, j - 1); }
    if i + 1 < s.n { VisitMixed(s, g, i, j, i + 1, j); }
    if j + 1 < s.m { VisitMixed(s, g, i, j, i, j + 1); }
    VisitMixed(s, g, i, j, s.n - 1, j);
    VisitMixed(s, g, i, j, i, s.m - 1);
    VisitMixed(s, g, i, j, 0, j);
    VisitMixed(s, g, i, j, i, 0);
  }

  /** The grid after k sweeps. */
  function Iterate(s: Setup, g: Grid, k: nat): (h: Grid)
    requires IsGrid(g, s.n, s.m)
    ensures IsGrid(h, s.n, s.m)
  {
    if k == 0 then g else Sweep(s, Iterate(s, g, k - 1))
  }

  /** Source cells keep their value through any number of sweeps. */
  lemma {:induction false} IterateKeepsSources(s: Setup, g: Grid, k: nat, x: int, y: int)
    requires IsGrid(g, s.n, s.m) && 0 <= x < s.n && 0 <= y < s.m && SourceAt(s.sources, x, y)
    ensures Iterate(s, g, k)[x][y] == g[x][y]
  {
    if k > 0 {
      IterateKeepsSources(s, g, k - 1, x, y);
      SweepCell(s, Iterate(s, g, k - 1), x, y);
    }
  }

  // ------------------------------------------------------------ the no-op rule

  /** The update rule that returns the centre unchanged; used for the baseline total. */
  function NoEffect(cell: real, right: real, top: real, left: real, bottom: real): real
  {
    cell
  }

  lemma {:induction false} VisitNoEffect(s: Setup, g: Grid, i: int, j: int)
    requires s.f == NoEffect && IsGrid(g, s.n, s.m) && InSweep(s.n, s.m, i, j)
    ensures Visit(s, g, i, j) == g
    decreases i, j
  {
    if j > 0 {
      VisitNoEffect(s, g, i, j - 1);
      assert g[i][j - 1 := g[i][j - 1]] == g[i];
    } else if i > 0 {
      VisitNoEffect(s, g, i - 1, s.m);
    }
  }

  /** Any number of sweeps with the no-op rule leave the grid as it was. */
  lemma {:induction false} IterateNoEffect(s: Setup, g: Grid, k: nat)
    requires s.f == NoEffect && IsGrid(g, s.n, s.m)
    ensures Iterate(s, g, k) == g
  {
    if k > 0 {
      IterateNoEffect(s, g, k - 1);
      VisitNoEffect(s, g, s.n, 0);
    }
  }

  // ------------------------------------------------------------------ totals

  /** The sum of a row, added left to right. */
  function RowSum(row: seq<real>): real
  {
    if |row| == 0 then 0.0 else RowSum(row[..|row| - 1]) + row[|row| - 1]
  }

  /** The sum of every cell of a grid, row after row. */
  function GridSum(g: Grid): real
  {
    if |g| == 0 then 0.0 else GridSum(g[..|g| - 1]) + RowSum(g[|g| - 1])
  }

  /** The C fabs, on reals. */
  function Abs(x: real): real
  {
    if x < 0.0 then -x else x
  }

  // ------------------------------------------------------- the in-place sweep

  /** The current contents of an in-place grid, read as a value. */
  function Cells(a: array2<real>): (g: Grid)
    reads a
    ensures IsGrid(g, a.Length0, a.Length1)
    ensures forall i, j :: 0 <= i < a.Length0 && 0 <= j < a.Length1 ==> g[i][j] == a[i, j]
  {
    seq(a.Length0, i requires 0 <= i < a.Length0 reads a =>
      seq(a.Length1, j requires 0 <= j < a.Length1 reads a => a[i, j]))
  }

  /** The two prefixes a row-major running total has covered are untouched by visiting (i, j). */
  lemma StepCellPrefixes(s: Setup, h: Grid, i: int, j: int)
    requires IsGrid(h, s.n, s.m) && 0 <= i < s.n && 0 <= j < s.m
    ensures StepCell(s, h, i, j)[..i] == h[..i]
    ensures StepCell(s, h, i, j)[i][..j] == h[i][..j]
  {
  }

  lemma RowSumSnoc(row: seq<real>, j: int)
    requires 0 <= j < |row|
    ensures RowSum(row[..j + 1]) == RowSum(row[..j]) + row[j]
  {
    assert row[..j + 1][..j] == row[..j];
  }

  lemma GridSumSnoc(g: Grid, i: int)
    requires 0 <= i < |g|
    ensures GridSum(g[..i + 1]) == GridSum(g[..i]) + RowSum(g[i])
  {
    assert g[..i + 1][..i] == g[..i];
  }

  /** Two grids of the same shape that agree on every cell are equal. */
  lemma GridExtensional(a: Grid, b: Grid, n: nat, m: nat)
    requires IsGrid(a, n, m) && IsGrid(b, n, m)
    requires forall p, q :: 0 <= p < n && 0 <= q < m ==> a[p][q] == b[p][q]
    ensures a == b
  {
    forall p | 0 <= p < n ensures a[p] == b[p] {
      assert forall q :: 0 <= q < m ==> a[p][q] == b[p][q];
    }
  }

  /** Visit one cell in place: a non-source cell is overwritten with its relaxed value. */
  method RelaxCell(f: Update, grid: array2<real>, sources: seq<SourcePoint>, isCyclic: int, i: int, j: int)
    requires 0 <= i < grid.Length0 && 0 <= j < grid.Length1
    modifies grid
    ensures Cells(grid) == StepCell(Setup(f, grid.Length0, grid.Length1, sources, isCyclic), old(Cells(grid)), i, j)
  {
    var n, m := grid.Length0, grid.Length1;
    ghost var before := Cells(grid);
    var src := IsSource(sources, i, j);
    if !src {
      var cur := Cells(grid);
      grid[i, j] := f(grid[i, j], Right(cur, n, m, isCyclic, i, j), Up(cur, n, m, isCyclic, i, j),
                      Left(cur, n, m, isCyclic, i, j), Down(cur, n, m, isCyclic, i, j));
      GridExtensional(Cells(grid), before[i := before[i][j := grid[i, j]]], n, m);
    }
  }

  /**
   * One sweep over the grid in place: row by row, column by column, every non-source cell
   * is overwritten with the update rule of its current neighbourhood, and the total of the
   * grid after the sweep is returned.
   */
  method CalculateIteration(f: Update, grid: array2<real>, sources: seq<SourcePoint>, isCyclic: int)
    returns (sum: real)
    modifies grid
    ensures Cells(grid) == Sweep(Setup(f, grid.Length0, grid.Length1, sources, isCyclic), old(Cells(grid)))
    ensures sum == GridSum(Cells(grid))
  {
    var n, m := grid.Length0, grid.Length1;
    ghost var s := Setup(f, n, m, sources, isCyclic);
    ghost var g0 := Cells(grid);
    sum := 0.0;
    var i := 0;
    while i < n
      invariant 0 <= i <= n
      invariant Cells(grid) == Visit(s, g0, i, 0)
      invariant sum == GridSum(Cells(grid)[..i])
    {
      var j := 0;
      while j < m
        invariant 0 <= j <= m
        invariant Cells(grid) == Visit(s, g0, i, j)
        invariant sum == GridSum(Cells(grid)[..i]) + RowSum(Cells(grid)[i][..j])
      {
        ghost var before := Cells(grid);
        RelaxCell(f, grid, sources, isCyclic, i, j);
        StepCellPrefixes(s, before, i, j);
        RowSumSnoc(Cells(grid)[i], j);
        sum := sum + grid[i, j];
        j := j + 1;
      }
      assert Cells(grid)[i][..m] == Cells(grid)[i];
      GridSumSnoc(Cells(grid), i);
      i := i + 1;
    }
    assert Cells(grid)[..n] == Cells(grid);
  }

  // ---------------------------------------------------------------- driving

  /** The change of the grid total made by sweep number k. */
  function Diff(s: Setup, g: Grid, k: nat): (d: real)
    requires IsGrid(g, s.n, s.m) && k >= 1
    ensures d >= 0.0
  {
    Abs(GridSum(Iterate(s, g, k)) - GridSum(Iterate(s, g, k - 1)))
  }

  /** The driver stops after sweep k: the cap is passed, or the change fell below the tolerance. */
  predicate Stops(s: Setup, g: Grid, terminate: real, nIter: nat, k: nat)
    requires IsGrid(g, s.n, s.m) && k >= 1
  {
    (nIter > 0 && k > nIter) || Diff(s, g, k) < terminate
  }

  /** The first sweep number, from k on, after which the driver stops. */
  function FirstStop(s: Setup, g: Grid, terminate: real, nIter: nat, k: nat): (r: nat)
    requires IsGrid(g, s.n, s.m) && nIter > 0 && 1 <= k <= nIter + 1
    ensures k <= r <= nIter + 1 && Stops(s, g, terminate, nIter, r)
    ensures forall k' :: k <= k' < r ==> !Stops(s, g, terminate, nIter, k')
    decreases nIter + 1 - k
  {
    if Stops(s, g, terminate, nIter, k) then k else FirstStop(s, g, terminate, nIter, k + 1)
  }

  /** A stopping sweep with no stopping sweep before it is the first one. */
  lemma {:induction false} FirstStopUnique(s: Setup, g: Grid, terminate: real, nIter: nat, k: nat, r: nat)
    requires IsGrid(g, s.n, s.m) && nIter > 0 && 1 <= k <= r <= nIter + 1
    requires Stops(s, g, terminate, nIter, r)
    requires forall k' :: k <= k' < r ==> !Stops(s, g, terminate, nIter, k')
    ensures FirstStop(s, g, terminate, nIter, k) == r
    decreases r - k
  {
    if k < r {
      FirstStopUnique(s, g, terminate, nIter, k + 1, r);
    }
  }

  /** With the no-op rule every sweep changes the total by exactly 0. */
  lemma NoEffectDiffZero(s: Setup, g: Grid, k: nat)
    requires s.f == NoEffect && IsGrid(g, s.n, s.m) && k >= 1
    ensures Diff(s, g, k) == 0.0
  {
    IterateNoEffect(s, g, k);
    IterateNoEffect(s, g, k - 1);
  }

  /**
   * The no-op rule stops after the first sweep when the tolerance is positive; as the
   * test is strict, a tolerance of 0 never stops it and only the cap does, after nIter + 1 sweeps.
   */
  lemma NoEffectRunLength(s: Setup, g: Grid, terminate: real, nIter: nat)
    requires s.f == NoEffect && IsGrid(g, s.n, s.m) && nIter > 0
    ensures terminate > 0.0 ==> FirstStop(s, g, terminate, nIter, 1) == 1
    ensures terminate <= 0.0 ==> FirstStop(s, g, terminate, nIter, 1) == nIter + 1
  {
    NoEffectDiffZero(s, g, 1);
    if terminate <= 0.0 {
      forall k' | 1 <= k' < nIter + 1 ensures !Stops(s, g, terminate, nIter, k') {
        NoEffectDiffZero(s, g, k');
      }
      NoEffectDiffZero(s, g, nIter + 1);
      FirstStopUnique(s, g, terminate, nIter, 1, nIter + 1);
    }
  }

  /** The baseline sweep with the no-op rule: the grid is left as it was and its total is returned. */
  method Baseline(grid: array2<real>, sources: seq<SourcePoint>, isCyclic: int) returns (sum: real)
    modifies grid
    ensures Cells(grid) == old(Cells(grid)) && sum == GridSum(Cells(grid))
  {
    ghost var g0 := Cells(grid);
    sum := CalculateIteration(NoEffect, grid, sources, isCyclic);
    VisitNoEffect(Setup(NoEffect, grid.Length0, grid.Length1, sources, isCyclic), g0, grid.Length0, 0);
  }

  /** One round of the driver loop: sweep with the real rule and measure the change of total. */
  method DriverStep(f: Update, grid: array2<real>, sources: seq<SourcePoint>, isCyclic: int, prevSum: real,
                    ghost g0: Grid, ghost i: nat)
    returns (sum: real, diff: real)
    requires IsGrid(g0, grid.Length0, grid.Length1)
    requires Cells(grid) == Iterate(Setup(f, grid.Length0, grid.Length1, sources, isCyclic), g0, i)
    requires prevSum == GridSum(Cells(grid))
    modifies grid
    ensures Cells(grid) == Iterate(Setup(f, grid.Length0, grid.Length1, sources, isCyclic), g0, i + 1)
    ensures sum == GridSum(Cells(grid))
    ensures diff == Diff(Setup(f, grid.Length0, grid.Length1, sources, isCyclic), g0, i + 1)
  {
    sum := CalculateIteration(f, grid, sources, isCyclic);
    diff := Abs(sum - prevSum);
  }

  /**
   * Relax the grid in place: take the baseline total with the no-op rule, then sweep with
   * the real rule until the change of total is below terminate or more than nIter sweeps
   * were made, and return that last change. sweeps counts the real sweeps.
   */
  method Calculate(f: Update, grid: array2<real>, sources: seq<SourcePoint>, terminate: real,
                   nIter: nat, isCyclic: int)
    returns (diff: real, ghost sweeps: nat)
    requires nIter > 0
    modifies grid
    ensures var s := Setup(f, grid.Length0, grid.Length1, sources, isCyclic);
      && sweeps == FirstStop(s, old(Cells(grid)), terminate, nIter, 1)
      && 1 <= sweeps <= nIter + 1
      && Cells(grid) == Iterate(s, old(Cells(grid)), sweeps)
      && diff == Diff(s, old(Cells(grid)), sweeps)
  {
    ghost var s := Setup(f, grid.Length0, grid.Length1, sources, isCyclic);
    ghost var g0 := Cells(grid);
    var prevSum := Baseline(grid, sources, isCyclic);
    var i: nat := 0;
    while true
      invariant i <= nIter
      invariant Cells(grid) == Iterate(s, g0, i)
      invariant prevSum == GridSum(Cells(grid))
      invariant forall k :: 1 <= k <= i ==> !Stops(s, g0, terminate, nIter, k)
      decreases nIter - i
    {
      var sum;
      sum, diff := DriverStep(f, grid, sources, isCyclic, prevSum, g0, i);
      i := i + 1;
      if (nIter > 0 && i > nIter) || diff < terminate {
        sweeps := i;
        FirstStopUnique(s, g0, terminate, nIter, 1, i);
        return;
      }
      prevSum := sum;
    }
  }
}
