/**
 * The heat-equation front end: it counts the lines of the problem file to know how many
 * sources it lists, builds the zero grid with the sources written in, and re-runs the
 * relaxation until a run ends with a change below the tolerance. Parsing the file and
 * printing are not modelled; their results are parameters here.
 */
module Reader {
  import opened Wrappers
  import opened Calculator

  /** Lines of the problem file that are not source lines: the size line, two separators,
      the tolerance, the iteration cap and the border flag. */
  const NON_SOURCES_LINES := 6

  // ------------------------------------------------------------- line count

  /** Count the newline characters, and answer one more: the last line has no newline. */
  method GetLinesNumber(content: seq<char>) returns (lines: int)
    ensures lines == multiset(content)['\n'] + 1
  {
    var linesNumber := 0;
    for k := 0 to |content|
      invariant linesNumber == multiset(content[..k])['\n']
    {
      assert content[..k + 1] == content[..k] + [content[k]];
      if content[k] == '\n' {
        linesNumber := linesNumber + 1;
      }
    }
    assert content[..|content|] == content;
    return linesNumber + 1;
  }

  /** The number of sources a problem file lists: its line count less the fixed lines. */
  method SourcesNumber(content: seq<char>) returns (k: int)
    ensures k == multiset(content)['\n'] + 1 - NON_SOURCES_LINES
  {
    var lines := GetLinesNumber(content);
    k := lines - NON_SOURCES_LINES;
  }

  // -------------------------------------------------------- grid construction

  /** A source lies in an n-by-m grid; only the upper bounds are checked when the grid is built. */
  predicate Fits(p: SourcePoint, n: int, m: int)
  {
    p.x < n && p.y < m
  }

  /** The n-by-m grid of zeros. */
  function Zeros(n: nat, m: nat): (g: Grid)
    ensures IsGrid(g, n, m)
    ensures forall i, j :: 0 <= i < n && 0 <= j < m ==> g[i][j] == 0.0
  {
    seq(n, _ => seq(m, _ => 0.0))
  }

  /** The zero grid with the sources written in list order. */
  function Seeded(n: nat, m: nat, sources: seq<SourcePoint>): (g: Grid)
    requires forall k :: 0 <= k < |sources| ==> 0 <= sources[k].x < n && 0 <= sources[k].y < m
    ensures IsGrid(g, n, m)
  {
    if |sources| == 0 then Zeros(n, m)
    else
      var h := Seeded(n, m, sources[..|sources| - 1]);
      var p := sources[|sources| - 1];
      h[p.x := h[p.x][p.y := p.value]]
  }

  /** Entry k is the last entry of the list at (x, y). */
  predicate LastAt(sources: seq<SourcePoint>, k: int, x: int, y: int)
  {
    0 <= k < |sources| && sources[k].x == x && sources[k].y == y &&
    forall k' :: k < k' < |sources| ==> !(sources[k'].x == x && sources[k'].y == y)
  }

  /** Writing one cell of a grid changes that cell only. */
  lemma WriteCell(h: Grid, n: nat, m: nat, p: SourcePoint, x: int, y: int)
    requires IsGrid(h, n, m) && 0 <= p.x < n && 0 <= p.y < m && 0 <= x < n && 0 <= y < m
    ensures h[p.x := h[p.x][p.y := p.value]][x][y] == if p.x == x && p.y == y then p.value else h[x][y]
  {
  }

  /** A cell no source sits at holds 0 in the seeded grid. */
  lemma {:induction false} SeededZero(n: nat, m: nat, sources: seq<SourcePoint>, x: int, y: int)
    requires forall k :: 0 <= k < |sources| ==> 0 <= sources[k].x < n && 0 <= sources[k].y < m
    requires 0 <= x < n && 0 <= y < m && !SourceAt(sources, x, y)
    ensures Seeded(n, m, sources)[x][y] == 0.0
  {
    if |sources| > 0 {
      var last := |sources| - 1;
      var front := sources[..last];
      assert forall k :: 0 <= k < |front| ==> front[k] == sources[k];
      SeededZero(n, m, front, x, y);
      WriteCell(Seeded(n, m, front), n, m, sources[last], x, y);
    }
  }

  /** A cell sources sit at holds the value of the last of them in the seeded grid. */
  lemma {:induction false} SeededLast(n: nat, m: nat, sources: seq<SourcePoint>, k: int, x: int, y: int)
    requires forall k :: 0 <= k < |sources| ==> 0 <= sources[k].x < n && 0 <= sources[k].y < m
    requires 0 <= x < n && 0 <= y < m && LastAt(sources, k, x, y)
    ensures Seeded(n, m, sources)[x][y] == sources[k].value
  {
    var last := |sources| - 1;
    var front := sources[..last];
    WriteCell(Seeded(n, m, front), n, m, sources[last], x, y);
    if k < last {
      assert LastAt(front, k, x, y);
      SeededLast(n, m, front, k, x, y);
    }
  }

  /** A seeded cell holds 0 unless a source sits there; then it holds the value of the last such source. */
  lemma SeededCell(n: nat, m: nat, sources: seq<SourcePoint>, x: int, y: int)
    requires forall k :: 0 <= k < |sources| ==> 0 <= sources[k].x < n && 0 <= sources[k].y < m
    requires 0 <= x < n && 0 <= y < m
    ensures !SourceAt(sources, x, y) ==> Seeded(n, m, sources)[x][y] == 0.0
    ensures forall k :: LastAt(sources, k, x, y) ==> Seeded(n, m, sources)[x][y] == sources[k].value
  {
    if !SourceAt(sources, x, y) {
      SeededZero(n, m, sources, x, y);
    }
    forall k | LastAt(sources, k, x, y) ensures Seeded(n, m, sources)[x][y] == sources[k].value {
      SeededLast(n, m, sources, k, x, y);
    }
  }

  /**
   * Allocate the n-by-m grid of zeros and write each source's value at its cell, in list
   * order. A source whose row is not below n or whose column is not below m is an error and
   * no grid is returned.
   */
  method GetGrid(n: nat, m: nat, sources: seq<SourcePoint>) returns (r: Option<array2<real>>)
    requires forall k :: 0 <= k < |sources| ==> sources[k].x >= 0 && sources[k].y >= 0
    ensures r.None? <==> exists k :: 0 <= k < |sources| && !Fits(sources[k], n, m)
    ensures r.Some? ==> fresh(r.value) && r.value.Length0 == n && r.value.Length1 == m
    ensures r.Some? ==> Cells(r.value) == Seeded(n, m, sources)
  {
    var grid := new real[n, m]((_, _) => 0.0);
    GridExtensional(Cells(grid), Zeros(n, m), n, m);
    for j := 0 to |sources|
      invariant forall k :: 0 <= k < j ==> Fits(sources[k], n, m)
      invariant Cells(grid) == Seeded(n, m, sources[..j])
    {
      var p := sources[j];
      if p.x >= n || p.y >= m {
        return None;
      }
      ghost var before := Cells(grid);
      grid[p.x, p.y] := p.value;
      assert sources[..j + 1][..j] == sources[..j];
      GridExtensional(Cells(grid), before[p.x := before[p.x][p.y := p.value]], n, m);
    }
    assert sources[..|sources|] == sources;
    return Some(grid);
  }

  // ------------------------------------------------------------------ driver

  /** Sweeping a sweeps and then b more is sweeping a + b. */
  lemma {:induction false} IterateAdd(s: Setup, g: Grid, a: nat, b: nat)
    requires IsGrid(g, s.n, s.m)
    ensures Iterate(s, Iterate(s, g, a), b) == Iterate(s, g, a + b)
  {
    if b > 0 {
      IterateAdd(s, g, a, b - 1);
    }
  }

  /** The sum of a list of sweep counts. */
  function Total(xs: seq<nat>): nat
  {
    if |xs| == 0 then 0 else Total(xs[..|xs| - 1]) + xs[|xs| - 1]
  }

  /** The grid a run starts from: the old grid after the sweeps of the runs before run r. */
  ghost function RunStart(s: Setup, g0: Grid, lengths: seq<nat>, r: nat): Grid
    requires IsGrid(g0, s.n, s.m) && r <= |lengths|
  {
    Iterate(s, g0, Total(lengths[..r]))
  }

  /**
   * Every run listed was one call of the relaxation from where the runs before it left the
   * grid, making exactly the sweeps that call makes, and every run but the last ended with a
   * change not below terminate. Stated run by run, from the last; HeatRunsMeaning gives the
   * same fact for every run at once.
   */
  ghost predicate HeatRuns(s: Setup, g0: Grid, terminate: real, nIter: nat, lengths: seq<nat>)
    requires IsGrid(g0, s.n, s.m) && nIter > 0
    decreases |lengths|
  {
    if |lengths| == 0 then true
    else
      var front := lengths[..|lengths| - 1];
      && HeatRuns(s, g0, terminate, nIter, front)
      && lengths[|lengths| - 1] == FirstStop(s, Iterate(s, g0, Total(front)), terminate, nIter, 1)
      && (|front| > 0 ==> LastDiff(s, g0, front) >= terminate)
  }

  /** The change of total returned by the last of the runs. */
  ghost function LastDiff(s: Setup, g0: Grid, lengths: seq<nat>): real
    requires IsGrid(g0, s.n, s.m) && |lengths| > 0 && lengths[|lengths| - 1] >= 1
  {
    Diff(s, RunStart(s, g0, lengths, |lengths| - 1), lengths[|lengths| - 1])
  }

  /** Every run listed makes exactly the sweeps of a call of the relaxation from its start. */
  ghost predicate EachRunLength(s: Setup, g0: Grid, terminate: real, nIter: nat, lengths: seq<nat>)
    requires IsGrid(g0, s.n, s.m) && nIter > 0
  {
    forall r :: 0 <= r < |lengths| ==> lengths[r] == FirstStop(s, RunStart(s, g0, lengths, r), terminate, nIter, 1)
  }

  /** Every run but the last ended with a change not below terminate. */
  ghost predicate EarlierRunsGoOn(s: Setup, g0: Grid, terminate: real, nIter: nat, lengths: seq<nat>)
    requires IsGrid(g0, s.n, s.m) && nIter > 0 && forall r :: 0 <= r < |lengths| ==> lengths[r] >= 1
  {
    forall r :: 0 <= r < |lengths| - 1 ==> Diff(s, RunStart(s, g0, lengths, r), lengths[r]) >= terminate
  }

  /** Appending a correct run to correct runs gives correct runs. */
  lemma ExtendLengths(s: Setup, g0: Grid, terminate: real, nIter: nat, front: seq<nat>, last: nat)
    requires IsGrid(g0, s.n, s.m) && nIter > 0
    requires EachRunLength(s, g0, terminate, nIter, front)
    requires last == FirstStop(s, Iterate(s, g0, Total(front)), terminate, nIter, 1)
    ensures EachRunLength(s, g0, terminate, nIter, front + [last])
  {
    var all := front + [last];
    forall r | 0 <= r < |all| ensures all[r] == FirstStop(s, RunStart(s, g0, all, r), terminate, nIter, 1) {
      if r < |front| {
        assert all[..r] == front[..r];
      } else {
        assert all[..r] == front;
      }
    }
  }

  /** The runs before the last of correct runs are correct, and so is the last. */
  lemma TrimLengths(s: Setup, g0: Grid, terminate: real, nIter: nat, front: seq<nat>, last: nat)
    requires IsGrid(g0, s.n, s.m) && nIter > 0
    requires EachRunLength(s, g0, terminate, nIter, front + [last])
    ensures EachRunLength(s, g0, terminate, nIter, front)
    ensures last == FirstStop(s, Iterate(s, g0, Total(front)), terminate, nIter, 1)
  {
    var all := front + [last];
    forall r | 0 <= r < |front| ensures front[r] == FirstStop(s, RunStart(s, g0, front, r), terminate, nIter, 1) {
      assert all[..r] == front[..r];
      assert all[r] == FirstStop(s, RunStart(s, g0, all, r), terminate, nIter, 1);
    }
    assert all[..|front|] == front;
    assert all[|front|] == FirstStop(s, RunStart(s, g0, all, |front|), terminate, nIter, 1);
  }

  /** Appending a run makes the run before it an earlier run, so its change must be not below terminate. */
  lemma ExtendGoOn(s: Setup, g0: Grid, terminate: real, nIter: nat, front: seq<nat>, last: nat)
    requires IsGrid(g0, s.n, s.m) && nIter > 0 && last >= 1 && forall r :: 0 <= r < |front| ==> front[r] >= 1
    ensures var all := front + [last];
      EarlierRunsGoOn(s, g0, terminate, nIter, all) <==>
        EarlierRunsGoOn(s, g0, terminate, nIter, front) && (|front| > 0 ==> LastDiff(s, g0, front) >= terminate)
  {
    var all := front + [last];
    forall r | 0 <= r <= |front| ensures RunStart(s, g0, all, r) == RunStart(s, g0, front, r) {
      assert all[..r] == front[..r];
    }
  }

  /**
   * The run-by-run definition says, of every run at once: it made the sweeps of one call of
   * the relaxation from where the runs before it left the grid, and, unless it is the last,
   * it ended with a change not below terminate.
   */
  lemma {:induction false} HeatRunsMeaning(s: Setup, g0: Grid, terminate: real, nIter: nat, lengths: seq<nat>)
    requires IsGrid(g0, s.n, s.m) && nIter > 0 && forall r :: 0 <= r < |lengths| ==> lengths[r] >= 1
    ensures HeatRuns(s, g0, terminate, nIter, lengths) <==>
      EachRunLength(s, g0, terminate, nIter, lengths) && EarlierRunsGoOn(s, g0, terminate, nIter, lengths)
    decreases |lengths|
  {
    if |lengths| > 0 {
      var front := lengths[..|lengths| - 1];
      var last := lengths[|lengths| - 1];
      assert lengths == front + [last];
      HeatRunsMeaning(s, g0, terminate, nIter, front);
      if HeatRuns(s, g0, terminate, nIter, lengths) {
        ExtendLengths(s, g0, terminate, nIter, front, last);
      }
      if EachRunLength(s, g0, terminate, nIter, lengths) {
        TrimLengths(s, g0, terminate, nIter, front, last);
      }
      ExtendGoOn(s, g0, terminate, nIter, front, last);
    }
  }

  /** One more run after a run that did not end below terminate: the runs stay correct. */
  lemma NextRun(s: Setup, g0: Grid, terminate: real, nIter: nat, before: seq<nat>, made: nat)
    requires IsGrid(g0, s.n, s.m) && nIter > 0 && |before| > 0 && made >= 1
    requires forall r :: 0 <= r < |before| ==> before[r] >= 1
    requires HeatRuns(s, g0, terminate, nIter, before) && LastDiff(s, g0, before) >= terminate
    requires made == FirstStop(s, Iterate(s, g0, Total(before)), terminate, nIter, 1)
    ensures HeatRuns(s, g0, terminate, nIter, before + [made])
    ensures Total(before + [made]) == Total(before) + made
    ensures LastDiff(s, g0, before + [made]) == Diff(s, Iterate(s, g0, Total(before)), made)
  {
    var all := before + [made];
    assert all[..|all| - 1] == before;
  }

  /** One more round of the main loop, after a run that did not end below terminate. */
  method AnotherRun(f: Update, grid: array2<real>, sources: seq<SourcePoint>, terminate: real,
                    nIter: nat, isCyclic: int, ghost g0: Grid, ghost before: seq<nat>)
    returns (diff: real, ghost made: nat)
    requires nIter > 0 && |before| > 0 && forall r :: 0 <= r < |before| ==> 1 <= before[r] <= nIter + 1
    requires IsGrid(g0, grid.Length0, grid.Length1)
    requires var s := Setup(f, grid.Length0, grid.Length1, sources, isCyclic);
      && HeatRuns(s, g0, terminate, nIter, before) && LastDiff(s, g0, before) >= terminate
      && Cells(grid) == Iterate(s, g0, Total(before))
    modifies grid
    ensures 1 <= made <= nIter + 1
    ensures var s := Setup(f, grid.Length0, grid.Length1, sources, isCyclic);
      && HeatRuns(s, g0, terminate, nIter, before + [made])
      && diff == LastDiff(s, g0, before + [made])
      && Cells(grid) == Iterate(s, g0, Total(before + [made]))
  {
    ghost var s := Setup(f, grid.Length0, grid.Length1, sources, isCyclic);
    ghost var start := Cells(grid);
    diff, made := Calculate(f, grid, sources, terminate, nIter, isCyclic);
    assert Cells(grid) == Iterate(s, start, made);
    IterateAdd(s, g0, Total(before), made);
    NextRun(s, g0, terminate, nIter, before, made);
  }

  /**
   * The main loop of the heat-equation program: run the relaxation, and run it again as long
   * as the change it returns is not below terminate. The program repeats without bound; here
   * at most rounds runs are made. lengths holds the number of sweeps of each run, in order.
   */
  method RunHeat(f: Update, grid: array2<real>, sources: seq<SourcePoint>, terminate: real,
                 nIter: nat, isCyclic: int, rounds: nat)
    returns (diff: real, done: bool, ghost lengths: seq<nat>)
    requires nIter > 0 && rounds >= 1
    modifies grid
    ensures done <==> diff < terminate
    ensures 1 <= |lengths| <= rounds && (!done ==> |lengths| == rounds)
    ensures forall r :: 0 <= r < |lengths| ==> 1 <= lengths[r] <= nIter + 1
    ensures var s := Setup(f, grid.Length0, grid.Length1, sources, isCyclic);
      && HeatRuns(s, old(Cells(grid)), terminate, nIter, lengths)
      && diff == LastDiff(s, old(Cells(grid)), lengths)
      && Cells(grid) == Iterate(s, old(Cells(grid)), Total(lengths))
  {
    ghost var s := Setup(f, grid.Length0, grid.Length1, sources, isCyclic);
    ghost var g0 := Cells(grid);
    ghost var made;
    diff, made := Calculate(f, grid, sources, terminate, nIter, isCyclic);
    lengths := [made];
    assert lengths[..0] == [];
    var runs := 1;
    while diff >= terminate && runs < rounds
      invariant runs == |lengths| && 1 <= runs <= rounds
      invariant forall r :: 0 <= r < |lengths| ==> 1 <= lengths[r] <= nIter + 1
      invariant IsGrid(g0, grid.Length0, grid.Length1)
      invariant HeatRuns(s, g0, terminate, nIter, lengths)
      invariant diff == LastDiff(s, g0, lengths)
      invariant Cells(grid) == Iterate(s, g0, Total(lengths))
      decreases rounds - runs
    {
      ghost var made;
      diff, made := AnotherRun(f, grid, sources, terminate, nIter, isCyclic, g0, lengths);
      lengths := lengths + [made];
      runs := runs + 1;
    }
    done := diff < terminate;
  }
}
