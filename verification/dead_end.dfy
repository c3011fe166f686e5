/** The dead-end-filling solver of dead_end_solver.py: working on a copy of
    the maze, each pass collects, in row-major order, every open (0) cell
    other than the two endpoints that has exactly one open neighbour, then
    marks all of them filled (2) together; passes repeat until one finds
    nothing, and the cells still open form the solution mask. Positions are
    `(y, x)` pairs, as in the source. */
module DeadEnd {
  import opened Grid

  const FILLED := 2

  /** `[(ny, nx)]` when that cell is inside the grid and open, else `[]`. */
  function OpenAt(g: Grid, h: int, w: int, ny: int, nx: int): (r: seq<(int, int)>)
    requires IsGrid(g, h, w)
    ensures forall q :: q in r <==> q == (ny, nx) && InBounds(h, w, ny, nx) && g[ny][nx] == EMPTY
    ensures |r| <= 1
  {
    if InBounds(h, w, ny, nx) && g[ny][nx] == EMPTY then [(ny, nx)] else []
  }

  /** The `neighbors` list of `count_open_neighbors(y, x)`: the in-bounds
      orthogonal neighbours holding 0, tried right, down, left, up. Walls and
      filled cells do not count. */
  function OpenNeighbours(g: Grid, h: int, w: int, y: int, x: int): (ns: seq<(int, int)>)
    requires IsGrid(g, h, w)
    ensures forall q :: q in ns <==> Adjacent((y, x), q) && InBounds(h, w, q.0, q.1) && g[q.0][q.1] == EMPTY
    ensures |ns| <= 4
  {
    var right, down, left, up := OpenAt(g, h, w, y, x + 1), OpenAt(g, h, w, y + 1, x), OpenAt(g, h, w, y, x - 1), OpenAt(g, h, w, y - 1, x);
    AdjacentCases((y, x));
    assert forall q :: q in right + down + left + up <==> q in right || q in down || q in left || q in up;
    right + down + left + up
  }

  /** No neighbour is listed twice, so the count is the number of open neighbours. */
  lemma OpenNeighboursDistinct(g: Grid, h: int, w: int, y: int, x: int)
    requires IsGrid(g, h, w)
    ensures Distinct(OpenNeighbours(g, h, w, y, x))
    ensures |OpenNeighbours(g, h, w, y, x)| == |Elems(OpenNeighbours(g, h, w, y, x))|
  {
    var right, down, left, up := OpenAt(g, h, w, y, x + 1), OpenAt(g, h, w, y + 1, x), OpenAt(g, h, w, y, x - 1), OpenAt(g, h, w, y - 1, x);
    var ns := right + down + left + up;
    assert ns == OpenNeighbours(g, h, w, y, x);
    forall i, j | 0 <= i < j < |ns|
      ensures ns[i] != ns[j]
    {
      assert ns[i] in right + down + left + up && ns[j] in right + down + left + up;
    }
    DistinctCard(ns);
  }

  /** The pair `count_open_neighbors` returns: the count and the list. */
  function CountOpenNeighbours(g: Grid, h: int, w: int, y: int, x: int): (r: (nat, seq<(int, int)>))
    requires IsGrid(g, h, w)
    ensures r.0 == |r.1| <= 4
    ensures forall q :: q in r.1 <==> Adjacent((y, x), q) && InBounds(h, w, q.0, q.1) && g[q.0][q.1] == EMPTY
  {
    var ns := OpenNeighbours(g, h, w, y, x);
    (|ns|, ns)
  }

  /** The test of the scan: an open cell, not an endpoint, with exactly one
      open neighbour. */
  predicate IsDeadEnd(g: Grid, h: int, w: int, start: (int, int), end: (int, int), y: int, x: int)
    requires IsGrid(g, h, w) && InBounds(h, w, y, x)
  {
    g[y][x] == EMPTY && (y, x) != start && (y, x) != end && CountOpenNeighbours(g, h, w, y, x).0 == 1
  }

  /** Row-major order: the order the scan visits cells in. */
  predicate Before(a: (int, int), b: (int, int)) {
    a.0 < b.0 || (a.0 == b.0 && a.1 < b.1)
  }

  /** Each listed cell comes before the next. */
  ghost predicate RowMajor(s: seq<(int, int)>)
    decreases |s|
  {
    |s| <= 1 || (Before(s[0], s[1]) && RowMajor(s[1..]))
  }

  /** In a row-major list every cell comes before every later one. */
  lemma {:induction false} RowMajorPair(s: seq<(int, int)>, i: int, j: int)
    requires RowMajor(s) && 0 <= i < j < |s|
    ensures Before(s[i], s[j])
    decreases |s|
  {
    if j > 1 {
      if i == 0 {
        RowMajorPair(s[1..], 0, j - 1);
      } else {
        RowMajorPair(s[1..], i - 1, j - 1);
      }
    }
  }

  /** A cell before everything of a row-major list extends it in order. */
  lemma RowMajorCons(a: (int, int), s: seq<(int, int)>)
    requires RowMajor(s) && forall q :: q in s ==> Before(a, q)
    ensures RowMajor([a] + s)
  {
    if |s| > 0 {
      assert s[0] in s;
      assert ([a] + s)[1..] == s;
    }
  }

  /** Two row-major lists, the first wholly before the second, join in order. */
  lemma {:induction false} RowMajorAppend(s: seq<(int, int)>, t: seq<(int, int)>)
    requires RowMajor(s) && RowMajor(t)
    requires forall p, q :: p in s && q in t ==> Before(p, q)
    ensures RowMajor(s + t)
    decreases |s|
  {
    if |s| == 0 {
      assert s + t == t;
    } else {
      var tail := s[1..];
      forall p, q | p in tail && q in t
        ensures Before(p, q)
      {
        assert p in s;
      }
      RowMajorAppend(tail, t);
      forall q | q in tail + t
        ensures Before(s[0], q)
      {
        if q in tail {
          var k :| 0 <= k < |tail| && tail[k] == q;
          RowMajorPair(s, 0, k + 1);
        } else {
          assert s[0] in s;
        }
      }
      RowMajorCons(s[0], tail + t);
      assert s + t == [s[0]] + (tail + t);
    }
  }

  /** The inner `for x` loop from column `x` on: the dead ends of row `y`, left to right. */
  function ScanRow(g: Grid, h: int, w: int, start: (int, int), end: (int, int), y: int, x: int): (r: seq<(int, int)>)
    requires IsGrid(g, h, w) && 0 <= y < h && 0 <= x <= w
    ensures forall p :: p in r <==> p.0 == y && x <= p.1 < w && IsDeadEnd(g, h, w, start, end, p.0, p.1)
    ensures RowMajor(r)
    decreases w - x
  {
    if x == w then []
    else
      var rest := ScanRow(g, h, w, start, end, y, x + 1);
      if IsDeadEnd(g, h, w, start, end, y, x) then
        RowMajorCons((y, x), rest);
        [(y, x)] + rest
      else rest
  }

  /** The outer `for y` loop from row `y` on. */
  function ScanRows(g: Grid, h: int, w: int, start: (int, int), end: (int, int), y: int): (r: seq<(int, int)>)
    requires IsGrid(g, h, w) && 0 <= y <= h
    ensures forall p :: p in r <==> y <= p.0 < h && 0 <= p.1 < w && IsDeadEnd(g, h, w, start, end, p.0, p.1)
    ensures RowMajor(r)
    decreases h - y
  {
    if y == h then []
    else
      assert |g[y]| == w;
      var row := ScanRow(g, h, w, start, end, y, 0);
      var rest := ScanRows(g, h, w, start, end, y + 1);
      RowMajorAppend(row, rest);
      row + rest
  }

  /** The `dead_ends` list of one pass, on the grid as it was when the pass began. */
  function DeadEnds(g: Grid, h: int, w: int, start: (int, int), end: (int, int)): (r: seq<(int, int)>)
    requires IsGrid(g, h, w)
    ensures forall p :: p in r <==> InBounds(h, w, p.0, p.1) && IsDeadEnd(g, h, w, start, end, p.0, p.1)
    ensures RowMajor(r)
  {
    ScanRows(g, h, w, start, end, 0)
  }

  /** Cells listed in row-major order are listed once each. */
  lemma RowMajorDistinct(s: seq<(int, int)>)
    requires RowMajor(s)
    ensures Distinct(s)
  {
    forall i, j | 0 <= i < j < |s|
      ensures s[i] != s[j]
    {
      RowMajorPair(s, i, j);
    }
  }

  /** `for y, x in dead_ends: working_maze[y, x] = 2`. */
  function FillAll(g: Grid, h: int, w: int, ds: seq<(int, int)>): (r: Grid)
    requires IsGrid(g, h, w)
    requires forall p :: p in ds ==> InBounds(h, w, p.0, p.1)
    ensures IsGrid(r, h, w)
    ensures forall y, x {:trigger r[y][x]} :: InBounds(h, w, y, x) ==> r[y][x] == if (y, x) in ds then FILLED else g[y][x]
    decreases |ds|
  {
    if |ds| == 0 then g
    else
      assert ds[0] in ds;
      assert InBounds(h, w, ds[0].0, ds[0].1) && |g[ds[0].0]| == w;
      var g1 := Set(g, ds[0].0, ds[0].1, FILLED);
      assert IsGrid(g1, h, w);
      var r := FillAll(g1, h, w, ds[1..]);
      assert forall p :: p in ds <==> p == ds[0] || p in ds[1..];
      r
  }

  /** Filling distinct open cells moves exactly those cells from the open
      cells to the filled ones. */
  lemma {:induction false} FillAllCounts(g: Grid, h: int, w: int, ds: seq<(int, int)>)
    requires IsGrid(g, h, w)
    requires forall p :: p in ds ==> InBounds(h, w, p.0, p.1) && g[p.0][p.1] == EMPTY
    requires Distinct(ds)
    ensures |CellsOf(FillAll(g, h, w, ds), EMPTY)| == |CellsOf(g, EMPTY)| - |ds|
    ensures |CellsOf(FillAll(g, h, w, ds), FILLED)| == |CellsOf(g, FILLED)| + |ds|
    decreases |ds|
  {
    if ds != [] {
      var p := ds[0];
      var g1 := Set(g, p.0, p.1, FILLED);
      CellsOfSetOther(g, p.0, p.1, FILLED, EMPTY);
      CellsOfSetSame(g, p.0, p.1, FILLED);
      assert p in CellsOf(g, EMPTY) && p !in CellsOf(g, FILLED);
      forall q | q in ds[1..]
        ensures InBounds(h, w, q.0, q.1) && g1[q.0][q.1] == EMPTY
      {
        assert q in ds;
        var k :| 1 <= k < |ds| && ds[k] == q;
        assert ds[0] != ds[k];
      }
      assert Distinct(ds[1..]);
      FillAllCounts(g1, h, w, ds[1..]);
    }
  }

  /** A path of open cells from `start` to `end`: consecutive cells adjacent,
      no cell twice. */
  ghost predicate OpenPath(g: Grid, h: int, w: int, start: (int, int), end: (int, int), path: seq<(int, int)>) {
    && IsGrid(g, h, w)
    && |path| >= 1 && path[0] == start && path[|path| - 1] == end
    && Distinct(path)
    && (forall i :: 0 <= i < |path| ==> InBounds(h, w, path[i].0, path[i].1) && g[path[i].0][path[i].1] == EMPTY)
    && (forall i :: 0 <= i < |path| - 1 ==> Adjacent(path[i], path[i + 1]))
  }

  /** No cell of an open start-to-end path is a dead end: the endpoints are
      exempt and every other cell has its two path neighbours open. */
  lemma PathNoDeadEnd(g: Grid, h: int, w: int, start: (int, int), end: (int, int), path: seq<(int, int)>, i: int)
    requires IsGrid(g, h, w) && OpenPath(g, h, w, start, end, path) && 0 <= i < |path|
    ensures !IsDeadEnd(g, h, w, start, end, path[i].0, path[i].1)
  {
    if 0 < i < |path| - 1 {
      var ns := OpenNeighbours(g, h, w, path[i].0, path[i].1);
      assert Adjacent(path[i - 1], path[i]);
      assert path[i - 1] in ns && path[i + 1] in ns;
      assert path[i - 1] != path[i + 1];
      TwoMembers(ns, path[i - 1], path[i + 1]);
    }
  }

  /** A sequence holding two different values has at least two entries. */
  lemma TwoMembers<T>(s: seq<T>, a: T, b: T)
    requires a in s && b in s && a != b
    ensures |s| >= 2
  {
    var i :| 0 <= i < |s| && s[i] == a;
    var j :| 0 <= j < |s| && s[j] == b;
    assert i != j;
  }

  /** One pass: the dead ends of the grid as it stood, all filled together. */
  function Pass(g: Grid, h: int, w: int, start: (int, int), end: (int, int)): (r: (Grid, seq<(int, int)>))
    requires IsGrid(g, h, w)
    ensures IsGrid(r.0, h, w)
    ensures forall p :: p in r.1 <==> InBounds(h, w, p.0, p.1) && IsDeadEnd(g, h, w, start, end, p.0, p.1)
    ensures forall y, x {:trigger r.0[y][x]} :: InBounds(h, w, y, x) ==> r.0[y][x] == if (y, x) in r.1 then FILLED else g[y][x]
  {
    var ds := DeadEnds(g, h, w, start, end);
    (FillAll(g, h, w, ds), ds)
  }

  /** A pass fills only dead ends, never a cell of an open start-to-end path,
      so it keeps every such path open. */
  lemma PassKeepsPath(g: Grid, h: int, w: int, start: (int, int), end: (int, int), path: seq<(int, int)>)
    requires IsGrid(g, h, w) && OpenPath(g, h, w, start, end, path)
    ensures OpenPath(Pass(g, h, w, start, end).0, h, w, start, end, path)
  {
    var r := Pass(g, h, w, start, end);
    forall i | 0 <= i < |path|
      ensures r.0[path[i].0][path[i].1] == EMPTY
    {
      PathNoDeadEnd(g, h, w, start, end, path, i);
    }
  }

  /** A pass that fills something lowers the number of open cells by the
      number it fills, and raises the filled count by as much. */
  lemma PassCounts(g: Grid, h: int, w: int, start: (int, int), end: (int, int))
    requires IsGrid(g, h, w)
    ensures |CellsOf(Pass(g, h, w, start, end).0, EMPTY)| == |CellsOf(g, EMPTY)| - |Pass(g, h, w, start, end).1|
    ensures |CellsOf(Pass(g, h, w, start, end).0, FILLED)| == |CellsOf(g, FILLED)| + |Pass(g, h, w, start, end).1|
  {
    var ds := DeadEnds(g, h, w, start, end);
    RowMajorDistinct(ds);
    FillAllCounts(g, h, w, ds);
  }

  /** A pass over `a` finds no dead end: the loop stops here. */
  predicate Settled(a: Grid, h: int, w: int, start: (int, int), end: (int, int)) {
    IsGrid(a, h, w) && |Pass(a, h, w, start, end).1| == 0
  }

  /** A pass only turns dead ends, which are open, into filled cells. */
  lemma PassFills(g: Grid, h: int, w: int, start: (int, int), end: (int, int))
    requires IsGrid(g, h, w)
    ensures FilledFrom(g, Pass(g, h, w, start, end).0, h, w)
  {
  }

  /** The grid the fill loop stops on when it starts from `g`: passes repeat
      until one finds no dead end. */
  function Settle(g: Grid, h: int, w: int, start: (int, int), end: (int, int)): (r: Grid)
    requires IsGrid(g, h, w)
    ensures Settled(r, h, w, start, end)
    ensures FilledFrom(g, r, h, w)
    decreases |CellsOf(g, EMPTY)|
  {
    var next := Pass(g, h, w, start, end);
    if |next.1| == 0 then g
    else
      PassCounts(g, h, w, start, end);
      PassFills(g, h, w, start, end);
      Settle(next.0, h, w, start, end)
  }

  /** How many passes the fill loop makes from `g`, counting the last one,
      which finds nothing; every pass but the last fills at least one cell. */
  function PassCount(g: Grid, h: int, w: int, start: (int, int), end: (int, int)): (n: nat)
    requires IsGrid(g, h, w)
    ensures 1 <= n <= |CellsOf(g, EMPTY)| - |CellsOf(Settle(g, h, w, start, end), EMPTY)| + 1
    decreases |CellsOf(g, EMPTY)|
  {
    var next := Pass(g, h, w, start, end);
    if |next.1| == 0 then 1
    else
      PassCounts(g, h, w, start, end);
      1 + PassCount(next.0, h, w, start, end)
  }

  /** `(y, x)` is a dead end of `g`, or of a later grid the fill loop
      reaches from `g`, at the start of a pass that fills something. */
  ghost predicate FilledAsDeadEnd(g: Grid, h: int, w: int, start: (int, int), end: (int, int), y: int, x: int)
    requires IsGrid(g, h, w) && InBounds(h, w, y, x)
    decreases |CellsOf(g, EMPTY)|
  {
    var next := Pass(g, h, w, start, end);
    && |next.1| > 0
    && (|| IsDeadEnd(g, h, w, start, end, y, x)
        || (PassCounts(g, h, w, start, end); FilledAsDeadEnd(next.0, h, w, start, end, y, x)))
  }

  /** The fill loop changes a cell exactly when the cell is a dead end at
      the start of some pass, and then it changes it from open to filled:
      isolated open cells and open loops are never filled. */
  lemma {:induction false} SettleFillsOnlyDeadEnds(g: Grid, h: int, w: int, start: (int, int), end: (int, int), y: int, x: int)
    requires IsGrid(g, h, w) && InBounds(h, w, y, x)
    ensures Settle(g, h, w, start, end)[y][x] != g[y][x] <==> FilledAsDeadEnd(g, h, w, start, end, y, x)
    decreases |CellsOf(g, EMPTY)|
  {
    var next := Pass(g, h, w, start, end);
    if |next.1| > 0 {
      PassCounts(g, h, w, start, end);
      PassFills(g, h, w, start, end);
      SettleFillsOnlyDeadEnds(next.0, h, w, start, end, y, x);
    }
  }

  /** Every grid the fill loop reaches keeps what it promises of the maze. */
  lemma {:induction false} SettleKeeps(maze: Grid, g: Grid, h: int, w: int, start: (int, int), end: (int, int))
    requires Kept(maze, g, h, w, start, end)
    ensures Kept(maze, Settle(g, h, w, start, end), h, w, start, end)
    decreases |CellsOf(g, EMPTY)|
  {
    var next := Pass(g, h, w, start, end);
    if |next.1| > 0 {
      PassKeeps(maze, g, h, w, start, end);
      SettleKeeps(maze, next.0, h, w, start, end);
    }
  }

  /** `solution`: 1 where the final working grid is still open, 0 elsewhere. */
  function Mask(g: Grid, h: int, w: int): (m: Grid)
    requires IsGrid(g, h, w)
    ensures IsGrid(m, h, w)
    ensures forall y, x {:trigger m[y][x]} :: InBounds(h, w, y, x) ==> (m[y][x] == 1 <==> g[y][x] == EMPTY) && (m[y][x] == 0 || m[y][x] == 1)
  {
    seq(|g|, y requires 0 <= y < |g| => seq(|g[y]|, x requires 0 <= x < |g[y]| => if g[y][x] == EMPTY then 1 else 0))
  }

  /** `working` is `maze` with some open cells filled and nothing else changed. */
  ghost predicate FilledFrom(maze: Grid, working: Grid, h: int, w: int) {
    && IsGrid(maze, h, w) && IsGrid(working, h, w)
    && forall y, x {:trigger working[y][x]} :: InBounds(h, w, y, x) ==>
         working[y][x] == maze[y][x] || (maze[y][x] == EMPTY && working[y][x] == FILLED)
  }

  /** `solve_maze_dead_end_filling` with `visualize` off: returns the
      solution mask, the number of cells filled and the number of passes,
      and also the final working grid the mask is read from. */
  method SolveDeadEndFilling(maze: Grid, h: int, w: int, start: (int, int), end: (int, int))
    returns (solution: Grid, cellsFilled: nat, iterations: nat, working: Grid)
    requires IsGrid(maze, h, w)
    ensures FilledFrom(maze, working, h, w)
    ensures solution == Mask(working, h, w)
    ensures forall y, x {:trigger IsDeadEnd(working, h, w, start, end, y, x)} :: InBounds(h, w, y, x) ==> !IsDeadEnd(working, h, w, start, end, y, x)
    ensures InBounds(h, w, start.0, start.1) && maze[start.0][start.1] == EMPTY ==> working[start.0][start.1] == EMPTY
    ensures InBounds(h, w, end.0, end.1) && maze[end.0][end.1] == EMPTY ==> working[end.0][end.1] == EMPTY
    ensures cellsFilled == |CellsOf(maze, EMPTY)| - |CellsOf(working, EMPTY)|
    ensures cellsFilled == |CellsOf(working, FILLED)| - |CellsOf(maze, FILLED)|
    ensures 1 <= iterations <= cellsFilled + 1
    ensures forall path {:trigger OpenPath(maze, h, w, start, end, path)} ::
              OpenPath(maze, h, w, start, end, path) ==> OpenPath(working, h, w, start, end, path)
    ensures forall y, x {:trigger working[y][x]} ::
              InBounds(h, w, y, x) && maze[y][x] == EMPTY && CountOpenNeighbours(maze, h, w, y, x).0 == 0 ==>
                working[y][x] == EMPTY
    ensures forall y, x {:trigger FilledAsDeadEnd(maze, h, w, start, end, y, x)} ::
              InBounds(h, w, y, x) ==> (working[y][x] != maze[y][x] <==> FilledAsDeadEnd(maze, h, w, start, end, y, x))
    ensures working == Settle(maze, h, w, start, end)
    ensures iterations == PassCount(maze, h, w, start, end)
  {
    working := maze;
    iterations, cellsFilled := 0, 0;
    var found := true;
    while found
      invariant IsGrid(working, h, w)
      invariant Settle(working, h, w, start, end) == Settle(maze, h, w, start, end)
      invariant found ==> iterations + PassCount(working, h, w, start, end) == PassCount(maze, h, w, start, end)
      invariant !found ==> Settled(working, h, w, start, end) && iterations == PassCount(maze, h, w, start, end)
      invariant cellsFilled == |CellsOf(maze, EMPTY)| - |CellsOf(working, EMPTY)|
      invariant cellsFilled == |CellsOf(working, FILLED)| - |CellsOf(maze, FILLED)|
      decreases |CellsOf(working, EMPTY)| + (if found then 1 else 0)
    {
      PassCounts(working, h, w, start, end);
      iterations := iterations + 1;
      found := false;
      var next := Pass(working, h, w, start, end);
      if |next.1| > 0 {
        found := true;
        cellsFilled := cellsFilled + |next.1|;
        working := next.0;
      }
    }
    SettleResult(maze, h, w, start, end);
    solution := Mask(working, h, w);
  }

  /** Every cell open in `maze` with no open neighbour there is still open
      in `working`. */
  ghost predicate Isolated(maze: Grid, working: Grid, h: int, w: int)
    requires IsGrid(maze, h, w) && IsGrid(working, h, w)
  {
    forall y, x {:trigger working[y][x]} ::
      InBounds(h, w, y, x) && maze[y][x] == EMPTY && CountOpenNeighbours(maze, h, w, y, x).0 == 0 ==>
        working[y][x] == EMPTY
  }

  /** A pass never fills a cell that had no open neighbour in the maze. */
  lemma PassKeepsIsolated(maze: Grid, working: Grid, h: int, w: int, start: (int, int), end: (int, int))
    requires FilledFrom(maze, working, h, w) && Isolated(maze, working, h, w)
    ensures Isolated(maze, Pass(working, h, w, start, end).0, h, w)
  {
    var next := Pass(working, h, w, start, end).0;
    forall y, x | InBounds(h, w, y, x) && maze[y][x] == EMPTY && CountOpenNeighbours(maze, h, w, y, x).0 == 0
      ensures next[y][x] == EMPTY
    {
      IsolatedStaysOpen(maze, working, h, w, start, end, y, x);
    }
  }

  /** What the fill loop keeps of the maze: only open cells filled, the
      endpoints and every open start-to-end path still open, and cells with
      no open neighbour in the maze never filled. */
  ghost predicate Kept(maze: Grid, working: Grid, h: int, w: int, start: (int, int), end: (int, int)) {
    && FilledFrom(maze, working, h, w)
    && (InBounds(h, w, start.0, start.1) && maze[start.0][start.1] == EMPTY ==> working[start.0][start.1] == EMPTY)
    && (InBounds(h, w, end.0, end.1) && maze[end.0][end.1] == EMPTY ==> working[end.0][end.1] == EMPTY)
    && (forall path {:trigger OpenPath(maze, h, w, start, end, path)} ::
          OpenPath(maze, h, w, start, end, path) ==> OpenPath(working, h, w, start, end, path))
    && Isolated(maze, working, h, w)
  }

  /** A pass keeps `Kept` and moves as many cells from open to filled as it
      lists. */
  lemma PassKeeps(maze: Grid, working: Grid, h: int, w: int, start: (int, int), end: (int, int))
    requires Kept(maze, working, h, w, start, end)
    ensures Kept(maze, Pass(working, h, w, start, end).0, h, w, start, end)
    ensures |CellsOf(Pass(working, h, w, start, end).0, EMPTY)| == |CellsOf(working, EMPTY)| - |Pass(working, h, w, start, end).1|
    ensures |CellsOf(Pass(working, h, w, start, end).0, FILLED)| == |CellsOf(working, FILLED)| + |Pass(working, h, w, start, end).1|
  {
    PassSteps(maze, working, h, w, start, end);
    PassKeepsIsolated(maze, working, h, w, start, end);
  }

  /** What the fill loop delivers from the maze: everything `Kept`
      promises, no dead end left, and a cell changed exactly when it was a
      dead end at the start of some pass. */
  lemma SettleResult(maze: Grid, h: int, w: int, start: (int, int), end: (int, int))
    requires IsGrid(maze, h, w)
    ensures Kept(maze, Settle(maze, h, w, start, end), h, w, start, end)
    ensures forall y, x {:trigger IsDeadEnd(Settle(maze, h, w, start, end), h, w, start, end, y, x)} ::
              InBounds(h, w, y, x) ==> !IsDeadEnd(Settle(maze, h, w, start, end), h, w, start, end, y, x)
    ensures forall y, x {:trigger FilledAsDeadEnd(maze, h, w, start, end, y, x)} ::
              InBounds(h, w, y, x) ==>
                (Settle(maze, h, w, start, end)[y][x] != maze[y][x] <==> FilledAsDeadEnd(maze, h, w, start, end, y, x))
  {
    SettleKeeps(maze, maze, h, w, start, end);
    SettledNoDeadEnd(Settle(maze, h, w, start, end), h, w, start, end);
    forall y, x | InBounds(h, w, y, x)
      ensures Settle(maze, h, w, start, end)[y][x] != maze[y][x] <==> FilledAsDeadEnd(maze, h, w, start, end, y, x)
    {
      SettleFillsOnlyDeadEnds(maze, h, w, start, end, y, x);
    }
  }

  /** A grid whose pass finds nothing has no dead end. */
  lemma SettledNoDeadEnd(g: Grid, h: int, w: int, start: (int, int), end: (int, int))
    requires Settled(g, h, w, start, end)
    ensures forall y, x {:trigger IsDeadEnd(g, h, w, start, end, y, x)} :: InBounds(h, w, y, x) ==> !IsDeadEnd(g, h, w, start, end, y, x)
  {
    forall y, x | InBounds(h, w, y, x)
      ensures !IsDeadEnd(g, h, w, start, end, y, x)
    {
      assert (y, x) !in Pass(g, h, w, start, end).1;
    }
  }

  /** What a pass keeps of the loop's invariant. */
  lemma PassSteps(maze: Grid, working: Grid, h: int, w: int, start: (int, int), end: (int, int))
    requires FilledFrom(maze, working, h, w)
    requires InBounds(h, w, start.0, start.1) && maze[start.0][start.1] == EMPTY ==> working[start.0][start.1] == EMPTY
    requires InBounds(h, w, end.0, end.1) && maze[end.0][end.1] == EMPTY ==> working[end.0][end.1] == EMPTY
    requires forall path {:trigger OpenPath(maze, h, w, start, end, path)} ::
               OpenPath(maze, h, w, start, end, path) ==> OpenPath(working, h, w, start, end, path)
    ensures FilledFrom(maze, Pass(working, h, w, start, end).0, h, w)
    ensures |CellsOf(Pass(working, h, w, start, end).0, EMPTY)| == |CellsOf(working, EMPTY)| - |Pass(working, h, w, start, end).1|
    ensures |CellsOf(Pass(working, h, w, start, end).0, FILLED)| == |CellsOf(working, FILLED)| + |Pass(working, h, w, start, end).1|
    ensures var next := Pass(working, h, w, start, end).0;
            InBounds(h, w, start.0, start.1) && maze[start.0][start.1] == EMPTY ==> next[start.0][start.1] == EMPTY
    ensures var next := Pass(working, h, w, start, end).0;
            InBounds(h, w, end.0, end.1) && maze[end.0][end.1] == EMPTY ==> next[end.0][end.1] == EMPTY
    ensures forall path {:trigger OpenPath(maze, h, w, start, end, path)} ::
              OpenPath(maze, h, w, start, end, path) ==> OpenPath(Pass(working, h, w, start, end).0, h, w, start, end, path)
  {
    PassCounts(working, h, w, start, end);
    forall path | OpenPath(maze, h, w, start, end, path)
      ensures OpenPath(Pass(working, h, w, start, end).0, h, w, start, end, path)
    {
      PassKeepsPath(working, h, w, start, end, path);
    }
  }

  /** A cell open in the maze with no open neighbour there is never filled:
      filling only closes neighbours, so it never has exactly one. */
  lemma IsolatedStaysOpen(maze: Grid, working: Grid, h: int, w: int, start: (int, int), end: (int, int), y: int, x: int)
    requires FilledFrom(maze, working, h, w) && InBounds(h, w, y, x)
    requires CountOpenNeighbours(maze, h, w, y, x).0 == 0
    ensures CountOpenNeighbours(working, h, w, y, x).0 == 0
    ensures !IsDeadEnd(working, h, w, start, end, y, x)
  {
    var ns := OpenNeighbours(working, h, w, y, x);
    assert forall q :: q in ns ==> q in OpenNeighbours(maze, h, w, y, x);
  }
}
