/** The depth-first backtracking solver of recursive_backtracking.py. The
    search state holds the `visited` cells, the cells marked 1 in
    `solution` and the `steps` counter; positions are `(y, x)` pairs. */
module Backtracking {
  import opened Grid
  import opened Wrappers

  /** Right, down, left, up as `(dy, dx)`: the order neighbours are tried. */
  const MOVES: seq<(int, int)> := [(0, 1), (1, 0), (0, -1), (-1, 0)]

  /** The cell reached from `p` by the `k`-th move. */
  function Move(p: (int, int), k: nat): (int, int)
    requires k < 4
  {
    (p.0 + MOVES[k].0, p.1 + MOVES[k].1)
  }

  /** The four moves reach exactly the orthogonal neighbours. */
  lemma MoveAdjacent(p: (int, int), k: nat)
    requires k < 4
    ensures Adjacent(p, Move(p, k))
  {
  }

  lemma AdjacentMove(p: (int, int), q: (int, int)) returns (k: nat)
    requires Adjacent(p, q)
    ensures k < 4 && q == Move(p, k)
  {
    if q == Move(p, 0) {
      k := 0;
    } else if q == Move(p, 1) {
      k := 1;
    } else if q == Move(p, 2) {
      k := 2;
    } else {
      k := 3;
    }
  }

  /** `visited`, the cells set to 1 in `solution`, and `steps`. */
  datatype Search = Search(visited: set<(int, int)>, marked: set<(int, int)>, steps: nat)

  /** What a call returns, with the chain of cells it marked when it
      succeeded (empty when it failed). */
  datatype Outcome = Outcome(found: bool, st: Search, chain: seq<(int, int)>)

  /** Every cell of an `h` x `w` grid. */
  function Cells(h: nat, w: nat): set<(int, int)> {
    set y, x | 0 <= y < h && 0 <= x < w :: (y, x)
  }

  /** The cells of `g` that are not walls. */
  ghost function Passable(g: Grid): set<(int, int)> {
    set y, x | 0 <= y < |g| && 0 <= x < |g[y]| && g[y][x] != WALL :: (y, x)
  }

  ghost predicate Within(h: nat, w: nat, cells: set<(int, int)>) {
    forall c :: c in cells ==> InBounds(h, w, c.0, c.1)
  }

  /** Entering an unvisited cell leaves fewer cells unvisited. */
  lemma EnterShrinks(h: nat, w: nat, v: set<(int, int)>, p: (int, int))
    requires Within(h, w, v) && InBounds(h, w, p.0, p.1) && p !in v
    ensures |Cells(h, w) - (v + {p})| < |Cells(h, w) - v|
  {
    assert p in Cells(h, w);
    assert Cells(h, w) - (v + {p}) == (Cells(h, w) - v) - {p};
  }

  /** Visiting more cells never leaves more cells unvisited. */
  lemma GrowShrinks(h: nat, w: nat, v: set<(int, int)>, v': set<(int, int)>)
    requires v <= v'
    ensures |Cells(h, w) - v'| <= |Cells(h, w) - v|
  {
    SubsetCard(Cells(h, w) - v', Cells(h, w) - v);
  }

  /** Entering `pos`: it becomes visited and marked, and `steps` grows by one. */
  function Enter(st: Search, pos: (int, int)): Search {
    Search(st.visited + {pos}, st.marked + {pos}, st.steps + 1)
  }

  /** `backtrack(pos)`: the goal test first, then the visited-or-wall test;
      otherwise the cell is entered (visited, marked, counted), the moves
      are tried, and on failure the mark is cleared. */
  function Backtrack(g: Grid, h: nat, w: nat, end: (int, int), pos: (int, int), st: Search): (r: Outcome)
    requires IsGrid(g, h, w) && InBounds(h, w, pos.0, pos.1) && Within(h, w, st.visited)
    ensures Within(h, w, r.st.visited) && st.visited <= r.st.visited
    ensures pos == end ==> r == Outcome(true, st.(marked := st.marked + {pos}), [pos])
    ensures pos != end && (pos in st.visited || g[pos.0][pos.1] == WALL) ==> r == Outcome(false, st, [])
    decreases |Cells(h, w) - st.visited|, 0
  {
    if pos == end then
      Outcome(true, st.(marked := st.marked + {pos}), [pos])
    else if pos in st.visited || g[pos.0][pos.1] == WALL then
      Outcome(false, st, [])
    else
      EnterShrinks(h, w, st.visited, pos);
      var r := TryMoves(g, h, w, end, pos, 0, Enter(st, pos));
      if r.found then Outcome(true, r.st, [pos] + r.chain)
      else Outcome(false, r.st.(marked := r.st.marked - {pos}), [])
  }

  /** The `for dy, dx in moves` loop from move `k` on: each in-bounds
      neighbour is searched in turn, stopping at the first success. */
  function TryMoves(g: Grid, h: nat, w: nat, end: (int, int), pos: (int, int), k: nat, st: Search): (r: Outcome)
    requires IsGrid(g, h, w) && k <= 4 && Within(h, w, st.visited)
    ensures Within(h, w, r.st.visited) && st.visited <= r.st.visited
    decreases |Cells(h, w) - st.visited|, 5 - k
  {
    if k == 4 then Outcome(false, st, [])
    else
      var n := Move(pos, k);
      if InBounds(h, w, n.0, n.1) then
        var r := Backtrack(g, h, w, end, n, st);
        if r.found then r
        else
          GrowShrinks(h, w, st.visited, r.st.visited);
          TryMoves(g, h, w, end, pos, k + 1, r.st)
      else TryMoves(g, h, w, end, pos, k + 1, st)
  }

  /** Every visited cell was entered exactly once: it is in the grid, not a
      wall and not `end`, and `steps` counts them. */
  ghost predicate Counted(g: Grid, h: nat, w: nat, end: (int, int), st: Search)
    requires IsGrid(g, h, w)
  {
    st.steps == |st.visited| &&
    forall c :: c in st.visited ==> InBounds(h, w, c.0, c.1) && g[c.0][c.1] != WALL && c != end
  }

  /** Entering an open, unvisited cell other than `end` keeps the count. */
  lemma EnterKeeps(g: Grid, h: nat, w: nat, end: (int, int), pos: (int, int), st: Search)
    requires IsGrid(g, h, w) && InBounds(h, w, pos.0, pos.1) && Within(h, w, st.visited)
    requires Counted(g, h, w, end, st) && st.marked <= st.visited
    requires pos != end && pos !in st.visited && g[pos.0][pos.1] != WALL
    ensures var e := Enter(st, pos);
            Within(h, w, e.visited) && Counted(g, h, w, end, e) && e.marked <= e.visited &&
            |Cells(h, w) - e.visited| < |Cells(h, w) - st.visited|
  {
    EnterShrinks(h, w, st.visited, pos);
  }

  /** Counting is kept, and a failed call clears every mark it made. */
  lemma {:induction false} BacktrackCounts(g: Grid, h: nat, w: nat, end: (int, int), pos: (int, int), st: Search)
    requires IsGrid(g, h, w) && InBounds(h, w, pos.0, pos.1) && Within(h, w, st.visited)
    requires Counted(g, h, w, end, st) && st.marked <= st.visited
    ensures var r := Backtrack(g, h, w, end, pos, st);
            Counted(g, h, w, end, r.st) && (!r.found ==> r.st.marked == st.marked && r.chain == [])
    decreases |Cells(h, w) - st.visited|, 1
  {
    if pos != end && pos !in st.visited && g[pos.0][pos.1] != WALL {
      EnterCounts(g, h, w, end, pos, st);
    }
  }

  lemma {:induction false} EnterCounts(g: Grid, h: nat, w: nat, end: (int, int), pos: (int, int), st: Search)
    requires IsGrid(g, h, w) && InBounds(h, w, pos.0, pos.1) && Within(h, w, st.visited)
    requires Counted(g, h, w, end, st) && st.marked <= st.visited
    requires pos != end && pos !in st.visited && g[pos.0][pos.1] != WALL
    ensures var r := Backtrack(g, h, w, end, pos, st);
            Counted(g, h, w, end, r.st) && (!r.found ==> r.st.marked == st.marked && r.chain == [])
    decreases |Cells(h, w) - st.visited|, 0
  {
    EnterKeeps(g, h, w, end, pos, st);
    TryMovesCounts(g, h, w, end, pos, 0, Enter(st, pos));
  }

  lemma {:induction false} TryMovesCounts(g: Grid, h: nat, w: nat, end: (int, int), pos: (int, int), k: nat, st: Search)
    requires IsGrid(g, h, w) && k <= 4 && Within(h, w, st.visited)
    requires Counted(g, h, w, end, st) && st.marked <= st.visited
    ensures var r := TryMoves(g, h, w, end, pos, k, st);
            Counted(g, h, w, end, r.st) && (!r.found ==> r.st.marked == st.marked && r.chain == [])
    decreases |Cells(h, w) - st.visited|, 5 - k
  {
    if k < 4 {
      var n := Move(pos, k);
      if InBounds(h, w, n.0, n.1) {
        BacktrackCounts(g, h, w, end, n, st);
        var r := Backtrack(g, h, w, end, n, st);
        if !r.found {
          GrowShrinks(h, w, st.visited, r.st.visited);
          TryMovesCounts(g, h, w, end, pos, k + 1, r.st);
        }
      } else {
        TryMovesCounts(g, h, w, end, pos, k + 1, st);
      }
    }
  }

  /** `p` leads to `end` one orthogonal move at a time through the grid;
      every cell but the last is open (the goal test comes before the
      wall test, so `end` itself may be a wall). */
  ghost predicate Route(g: Grid, h: nat, w: nat, p: seq<(int, int)>, end: (int, int))
    requires IsGrid(g, h, w)
  {
    |p| >= 1 && p[|p| - 1] == end &&
    (forall i :: 0 <= i < |p| ==> InBounds(h, w, p[i].0, p[i].1)) &&
    (forall i :: 0 <= i < |p| - 1 ==> g[p[i].0][p[i].1] != WALL && Adjacent(p[i], p[i + 1]))
  }

  /** A successful call marks exactly a duplicate-free route from `pos` to
      `end` through cells it had not visited before. */
  ghost predicate Found(g: Grid, h: nat, w: nat, end: (int, int), st: Search, r: Outcome)
    requires IsGrid(g, h, w)
  {
    Route(g, h, w, r.chain, end) && Distinct(r.chain) &&
    (forall i :: 0 <= i < |r.chain| - 1 ==> r.chain[i] !in st.visited) &&
    r.st.marked == st.marked + Elems(r.chain)
  }

  lemma {:induction false} BacktrackFinds(g: Grid, h: nat, w: nat, end: (int, int), pos: (int, int), st: Search)
    requires IsGrid(g, h, w) && InBounds(h, w, pos.0, pos.1) && Within(h, w, st.visited)
    requires Counted(g, h, w, end, st) && st.marked <= st.visited
    ensures var r := Backtrack(g, h, w, end, pos, st);
            r.found ==> Found(g, h, w, end, st, r) && r.chain[0] == pos
    decreases |Cells(h, w) - st.visited|, 1
  {
    if pos != end && pos !in st.visited && g[pos.0][pos.1] != WALL {
      EnterFinds(g, h, w, end, pos, st);
    }
  }

  lemma {:induction false} EnterFinds(g: Grid, h: nat, w: nat, end: (int, int), pos: (int, int), st: Search)
    requires IsGrid(g, h, w) && InBounds(h, w, pos.0, pos.1) && Within(h, w, st.visited)
    requires Counted(g, h, w, end, st) && st.marked <= st.visited
    requires pos != end && pos !in st.visited && g[pos.0][pos.1] != WALL
    ensures var r := Backtrack(g, h, w, end, pos, st);
            r.found ==> Found(g, h, w, end, st, r) && r.chain[0] == pos
    decreases |Cells(h, w) - st.visited|, 0
  {
    EnterKeeps(g, h, w, end, pos, st);
    TryMovesFinds(g, h, w, end, pos, 0, Enter(st, pos));
    var t := TryMoves(g, h, w, end, pos, 0, Enter(st, pos));
    if t.found {
      EnterFound(g, h, w, end, pos, st, t);
    }
  }

  /** Entering `pos` and then finding a route from one of its neighbours
      finds a route from `pos`. */
  lemma EnterFound(g: Grid, h: nat, w: nat, end: (int, int), pos: (int, int), st: Search, t: Outcome)
    requires IsGrid(g, h, w) && InBounds(h, w, pos.0, pos.1) && g[pos.0][pos.1] != WALL
    requires pos != end && pos !in st.visited
    requires Found(g, h, w, end, Enter(st, pos), t) && Adjacent(pos, t.chain[0])
    ensures Found(g, h, w, end, st, Outcome(true, t.st, [pos] + t.chain))
  {
    ConsRoute(g, h, w, end, pos, t.chain);
    ConsFresh(pos, st.visited, Enter(st, pos).visited, t.chain, end);
    assert Elems([pos] + t.chain) == {pos} + Elems(t.chain);
  }

  lemma {:induction false} TryMovesFinds(g: Grid, h: nat, w: nat, end: (int, int), pos: (int, int), k: nat, st: Search)
    requires IsGrid(g, h, w) && k <= 4 && Within(h, w, st.visited)
    requires Counted(g, h, w, end, st) && st.marked <= st.visited
    ensures var r := TryMoves(g, h, w, end, pos, k, st);
            r.found ==> Found(g, h, w, end, st, r) && Adjacent(pos, r.chain[0])
    decreases |Cells(h, w) - st.visited|, 5 - k
  {
    if k < 4 {
      var n := Move(pos, k);
      if InBounds(h, w, n.0, n.1) {
        BacktrackFinds(g, h, w, end, n, st);
        BacktrackCounts(g, h, w, end, n, st);
        MoveAdjacent(pos, k);
        var r := Backtrack(g, h, w, end, n, st);
        if !r.found {
          GrowShrinks(h, w, st.visited, r.st.visited);
          TryMovesFinds(g, h, w, end, pos, k + 1, r.st);
          var t := TryMoves(g, h, w, end, pos, k + 1, r.st);
          if t.found {
            FoundWeaken(g, h, w, end, st, r.st, t);
          }
        }
      } else {
        TryMovesFinds(g, h, w, end, pos, k + 1, st);
      }
    }
  }

  /** A failed sibling search leaves the marks alone, so a later success
      also counts from the earlier state. */
  lemma FoundWeaken(g: Grid, h: nat, w: nat, end: (int, int), st: Search, mid: Search, t: Outcome)
    requires IsGrid(g, h, w) && st.visited <= mid.visited
    requires Found(g, h, w, end, mid, t)
    requires mid.marked == st.marked
    ensures Found(g, h, w, end, st, t)
  {
  }

  /** Putting an open cell in front of a route from one of its neighbours
      gives a route. */
  lemma ConsRoute(g: Grid, h: nat, w: nat, end: (int, int), pos: (int, int), p: seq<(int, int)>)
    requires IsGrid(g, h, w) && InBounds(h, w, pos.0, pos.1) && g[pos.0][pos.1] != WALL
    requires Route(g, h, w, p, end) && Adjacent(pos, p[0])
    ensures Route(g, h, w, [pos] + p, end)
  {
    var q := [pos] + p;
    forall i | 0 <= i < |q| - 1
      ensures g[q[i].0][q[i].1] != WALL && Adjacent(q[i], q[i + 1])
    {
      if i > 0 {
        assert q[i] == p[i - 1] && q[i + 1] == p[i];
      }
    }
  }

  /** The entered cell differs from every cell of the route found after it. */
  lemma ConsFresh(pos: (int, int), v: set<(int, int)>, v': set<(int, int)>, p: seq<(int, int)>, end: (int, int))
    requires v' == v + {pos} && pos != end && pos !in v
    requires |p| >= 1 && p[|p| - 1] == end && Distinct(p)
    requires forall i :: 0 <= i < |p| - 1 ==> p[i] !in v'
    ensures Distinct([pos] + p)
    ensures forall i :: 0 <= i < |p| ==> ([pos] + p)[i] !in v
  {
    var q := [pos] + p;
    forall i, j | 0 <= i < j < |q|
      ensures q[i] != q[j]
    {
      if i == 0 {
        assert q[j] == p[j - 1];
        if j - 1 < |p| - 1 {
          assert p[j - 1] !in v';
        }
      } else {
        assert q[i] == p[i - 1] && q[j] == p[j - 1];
      }
    }
  }

  /** The neighbour reached by move `j` of `c`, if in the grid, is not
      `end`, and is visited or a wall. */
  ghost predicate Settled(g: Grid, h: nat, w: nat, end: (int, int), v: set<(int, int)>, c: (int, int), j: nat)
    requires IsGrid(g, h, w) && j < 4
  {
    var n := Move(c, j);
    InBounds(h, w, n.0, n.1) ==> n != end && (n in v || g[n.0][n.1] == WALL)
  }

  /** Moves `k` to 3 of `c` lead nowhere new. */
  ghost predicate Tried(g: Grid, h: nat, w: nat, end: (int, int), v: set<(int, int)>, c: (int, int), k: nat)
    requires IsGrid(g, h, w)
  {
    forall j :: k <= j < 4 ==> Settled(g, h, w, end, v, c, j)
  }

  /** Every in-bounds neighbour of `c` is not `end`, and is visited or a wall. */
  ghost predicate ClosedAt(g: Grid, h: nat, w: nat, end: (int, int), v: set<(int, int)>, c: (int, int))
    requires IsGrid(g, h, w)
  {
    Tried(g, h, w, end, v, c, 0)
  }

  /** Every visited cell off the current chain has been searched out. */
  ghost predicate Closed(g: Grid, h: nat, w: nat, end: (int, int), v: set<(int, int)>, marked: set<(int, int)>)
    requires IsGrid(g, h, w)
  {
    forall c :: c in v && c !in marked ==> ClosedAt(g, h, w, end, v, c)
  }

  lemma ClosedGrow(g: Grid, h: nat, w: nat, end: (int, int), v: set<(int, int)>, v': set<(int, int)>, c: (int, int))
    requires IsGrid(g, h, w) && v <= v' && ClosedAt(g, h, w, end, v, c)
    ensures ClosedAt(g, h, w, end, v', c)
  {
    forall j | 0 <= j < 4
      ensures Settled(g, h, w, end, v', c, j)
    {
      assert Settled(g, h, w, end, v, c, j);
    }
  }

  /** A failed call leaves every visited cell off the chain searched out,
      and `pos` is not `end` and is visited or a wall. */
  lemma {:induction false} BacktrackCloses(g: Grid, h: nat, w: nat, end: (int, int), pos: (int, int), st: Search)
    requires IsGrid(g, h, w) && InBounds(h, w, pos.0, pos.1) && Within(h, w, st.visited)
    requires Counted(g, h, w, end, st) && st.marked <= st.visited
    requires Closed(g, h, w, end, st.visited, st.marked)
    ensures var r := Backtrack(g, h, w, end, pos, st);
            !r.found ==>
              Closed(g, h, w, end, r.st.visited, r.st.marked) &&
              pos != end && (pos in r.st.visited || g[pos.0][pos.1] == WALL)
    decreases |Cells(h, w) - st.visited|, 1
  {
    if pos != end && pos !in st.visited && g[pos.0][pos.1] != WALL {
      EnterCloses(g, h, w, end, pos, st);
    }
  }

  lemma {:induction false} EnterCloses(g: Grid, h: nat, w: nat, end: (int, int), pos: (int, int), st: Search)
    requires IsGrid(g, h, w) && InBounds(h, w, pos.0, pos.1) && Within(h, w, st.visited)
    requires Counted(g, h, w, end, st) && st.marked <= st.visited
    requires Closed(g, h, w, end, st.visited, st.marked)
    requires pos != end && pos !in st.visited && g[pos.0][pos.1] != WALL
    ensures var r := Backtrack(g, h, w, end, pos, st);
            !r.found ==>
              Closed(g, h, w, end, r.st.visited, r.st.marked) &&
              pos != end && (pos in r.st.visited || g[pos.0][pos.1] == WALL)
    decreases |Cells(h, w) - st.visited|, 0
  {
    EnterKeeps(g, h, w, end, pos, st);
    EnterClosed(g, h, w, end, pos, st);
    TryMovesCloses(g, h, w, end, pos, 0, Enter(st, pos));
    TryMovesCounts(g, h, w, end, pos, 0, Enter(st, pos));
    var t := TryMoves(g, h, w, end, pos, 0, Enter(st, pos));
    if !t.found {
      LeaveClosed(g, h, w, end, pos, st.marked, t.st);
    }
  }

  /** The entered cell is on the chain, so nothing new needs searching out. */
  lemma EnterClosed(g: Grid, h: nat, w: nat, end: (int, int), pos: (int, int), st: Search)
    requires IsGrid(g, h, w) && Closed(g, h, w, end, st.visited, st.marked)
    ensures Closed(g, h, w, end, Enter(st, pos).visited, Enter(st, pos).marked)
  {
    var e := Enter(st, pos);
    forall c | c in e.visited && c !in e.marked
      ensures ClosedAt(g, h, w, end, e.visited, c)
    {
      ClosedGrow(g, h, w, end, st.visited, e.visited, c);
    }
  }

  /** Once every move from `pos` has failed, `pos` leaves the chain searched out. */
  lemma LeaveClosed(g: Grid, h: nat, w: nat, end: (int, int), pos: (int, int), marked: set<(int, int)>, t: Search)
    requires IsGrid(g, h, w) && pos !in marked && t.marked == marked + {pos}
    requires Closed(g, h, w, end, t.visited, t.marked) && ClosedAt(g, h, w, end, t.visited, pos)
    ensures Closed(g, h, w, end, t.visited, t.marked - {pos})
  {
  }

  lemma {:induction false} TryMovesCloses(g: Grid, h: nat, w: nat, end: (int, int), pos: (int, int), k: nat, st: Search)
    requires IsGrid(g, h, w) && k <= 4 && Within(h, w, st.visited)
    requires Counted(g, h, w, end, st) && st.marked <= st.visited
    requires Closed(g, h, w, end, st.visited, st.marked)
    ensures var r := TryMoves(g, h, w, end, pos, k, st);
            !r.found ==>
              Closed(g, h, w, end, r.st.visited, r.st.marked) && Tried(g, h, w, end, r.st.visited, pos, k)
    decreases |Cells(h, w) - st.visited|, 5 - k
  {
    if k < 4 {
      var n := Move(pos, k);
      if InBounds(h, w, n.0, n.1) {
        BacktrackCloses(g, h, w, end, n, st);
        BacktrackCounts(g, h, w, end, n, st);
        var r := Backtrack(g, h, w, end, n, st);
        if !r.found {
          GrowShrinks(h, w, st.visited, r.st.visited);
          TryMovesCloses(g, h, w, end, pos, k + 1, r.st);
          var t := TryMoves(g, h, w, end, pos, k + 1, r.st);
          if !t.found {
            assert Settled(g, h, w, end, t.st.visited, pos, k);
          }
        }
      } else {
        TryMovesCloses(g, h, w, end, pos, k + 1, st);
        assert Settled(g, h, w, end, TryMoves(g, h, w, end, pos, k + 1, st).st.visited, pos, k);
      }
    }
  }

  /** Some route leads from `start` to `end`. */
  ghost predicate Reachable(g: Grid, h: nat, w: nat, start: (int, int), end: (int, int))
    requires IsGrid(g, h, w)
  {
    exists p :: Route(g, h, w, p, end) && p[0] == start
  }

  /** No route leaves a searched-out region that does not contain `end`:
      every cell of a route from inside it stays inside it. */
  lemma {:induction false} RouteStaysInside(g: Grid, h: nat, w: nat, end: (int, int), v: set<(int, int)>, p: seq<(int, int)>, i: nat)
    requires IsGrid(g, h, w) && Closed(g, h, w, end, v, {}) && end !in v
    requires Route(g, h, w, p, end) && p[0] in v && i < |p|
    ensures p[i] in v
  {
    if i > 0 {
      RouteStaysInside(g, h, w, end, v, p, i - 1);
      assert ClosedAt(g, h, w, end, v, p[i - 1]);
      var k := AdjacentMove(p[i - 1], p[i]);
      assert Settled(g, h, w, end, v, p[i - 1], k);
    }
  }

  datatype BacktrackError = IndexError

  /** What `solve_maze_with_pygame` hands back, plus the route the marks
      trace out. */
  datatype Solved = Solved(solution: Grid, steps: nat, route: seq<(int, int)>)

  /** The 0/1 mask with ones on `cells`. */
  function MaskOf(h: nat, w: nat, cells: set<(int, int)>): (m: Grid)
    ensures IsGrid(m, h, w)
    ensures forall y, x {:trigger m[y][x]} :: InBounds(h, w, y, x) ==> m[y][x] == (if (y, x) in cells then 1 else 0)
  {
    seq(h, y => seq(w, x => if (y, x) in cells then 1 else 0))
  }

  /** `solve_maze_with_pygame` without the window: `backtrack(start)` from
      empty overlays. A start outside the grid fails on its first index. */
  function SolveMaze(maze: Grid, h: nat, w: nat, start: (int, int), end: (int, int)): (r: Result<Solved, BacktrackError>)
    requires IsGrid(maze, h, w)
    ensures r.Err? <==> !InBounds(h, w, start.0, start.1)
  {
    if !InBounds(h, w, start.0, start.1) then Err(IndexError)
    else
      var o := Backtrack(maze, h, w, end, start, Search({}, {}, 0));
      Ok(Solved(MaskOf(h, w, o.st.marked), o.st.steps, o.chain))
  }

  /** The solver is sound and complete: it marks a route exactly when one
      exists, the mask holds ones on that route's cells only, and each
      step entered a distinct open cell. */
  lemma SolveMazeCorrect(maze: Grid, h: nat, w: nat, start: (int, int), end: (int, int))
    requires IsGrid(maze, h, w) && InBounds(h, w, start.0, start.1)
    ensures var res := SolveMaze(maze, h, w, start, end).value;
            && (res.route != [] <==> Reachable(maze, h, w, start, end))
            && (res.route != [] ==> Route(maze, h, w, res.route, end) && res.route[0] == start && Distinct(res.route))
            && (forall y, x {:trigger res.solution[y][x]} :: InBounds(h, w, y, x) ==>
                  (res.solution[y][x] == 1 <==> (y, x) in res.route) && (res.solution[y][x] == 0 || res.solution[y][x] == 1))
            && res.steps <= |Passable(maze)|
  {
    var st0 := Search({}, {}, 0);
    var o := Backtrack(maze, h, w, end, start, st0);
    BacktrackCounts(maze, h, w, end, start, st0);
    BacktrackFinds(maze, h, w, end, start, st0);
    BacktrackCloses(maze, h, w, end, start, st0);
    if o.found {
      assert Route(maze, h, w, o.chain, end) && o.chain[0] == start;
    } else {
      forall p: seq<(int, int)> | Route(maze, h, w, p, end) && p[0] == start
        ensures false
      {
        if start in o.st.visited {
          RouteStaysInside(maze, h, w, end, o.st.visited, p, |p| - 1);
        } else {
          assert false;
        }
      }
    }
    assert o.st.visited <= Passable(maze) by {
      forall c | c in o.st.visited
        ensures c in Passable(maze)
      {
        assert InBounds(h, w, c.0, c.1) && maze[c.0][c.1] != WALL;
      }
    }
    SubsetCard(o.st.visited, Passable(maze));
  }
}
