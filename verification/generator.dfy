/** The iterative randomized-backtracking generator of
    large_maze_generator.py: `LargeMazeGenerator.__init__` and the carving
    loop of `generate_iterative`. The stack and the visited set hold `(x, y)`
    pairs while the grid is indexed `maze[y][x]`, as in the source. The
    source's `random.choice` becomes a caller-supplied oracle. */
module Generator {
  import opened Grid
  import opened Lattice
  import opened Wrappers

  /** `__init__`: an even dimension is rounded up, an odd one kept: the
      result is the least odd number not below `n`. */
  function OddDimension(n: int): (r: int)
    ensures r % 2 == 1
    ensures n <= r <= n + 1
    ensures n % 2 == 1 ==> r == n
  {
    if n % 2 == 0 then n + 1 else n
  }

  /** The source's candidate test for a target `q`: strictly inside the
      border and not yet visited. */
  predicate Carvable(w: int, h: int, visited: set<(int, int)>, q: (int, int)) {
    0 < q.0 < w - 1 && 0 < q.1 < h - 1 && q !in visited
  }

  /** The `neighbors` list built from the top of the stack `p`. */
  function Candidates(w: int, h: int, visited: set<(int, int)>, p: (int, int)): (c: seq<Compass>)
    ensures forall d :: d in c <==> Carvable(w, h, visited, Jump(p, d))
    ensures forall i, j :: 0 <= i < j < |c| ==> Rank(c[i]) < Rank(c[j])
  {
    (if Carvable(w, h, visited, Jump(p, North)) then [North] else []) +
    (if Carvable(w, h, visited, Jump(p, South)) then [South] else []) +
    (if Carvable(w, h, visited, Jump(p, West)) then [West] else []) +
    (if Carvable(w, h, visited, Jump(p, East)) then [East] else [])
  }

  /** The generator's loop state: grid, stack of `(x, y)`, visited set and
      the `step` counter of carves. */
  datatype GenState = GenState(maze: Grid, stack: seq<(int, int)>, visited: set<(int, int)>, step: nat)

  /** The state before the loop: all walls except (1, 1), which is the only
      visited cell and the only stack entry. */
  function Init(w: int, h: int): (s: GenState)
    requires ValidDims(w, h)
    ensures IsGrid(s.maze, h, w)
    ensures forall y, x {:trigger s.maze[y][x]} :: InBounds(h, w, y, x) ==> s.maze[y][x] == (if (x, y) == (1, 1) then EMPTY else WALL)
    ensures s.stack == [(1, 1)] && s.visited == {(1, 1)} && s.step == 0
  {
    GenState(Set(Filled(h, w, WALL), 1, 1, EMPTY), [(1, 1)], {(1, 1)}, 0)
  }

  /** `g2` differs from `g1` exactly in the cells `a` and `b` (given as
      `(x, y)`), which are open in `g2`. */
  ghost predicate OpensExactly(h: int, w: int, g1: Grid, g2: Grid, a: (int, int), b: (int, int)) {
    && IsGrid(g1, h, w) && IsGrid(g2, h, w)
    && InBounds(h, w, a.1, a.0) && InBounds(h, w, b.1, b.0)
    && g2[a.1][a.0] == EMPTY && g2[b.1][b.0] == EMPTY
    && forall y, x {:trigger g2[y][x]} :: InBounds(h, w, y, x) && (x, y) != a && (x, y) != b ==> g2[y][x] == g1[y][x]
  }

  /** An open cell is either a visited lattice point or the wall between two
      visited lattice points. */
  predicate Justified(visited: set<(int, int)>, x: int, y: int) {
    || (x % 2 == 1 && y % 2 == 1 && (x, y) in visited)
    || (x % 2 == 0 && y % 2 == 1 && (x - 1, y) in visited && (x + 1, y) in visited)
    || (x % 2 == 1 && y % 2 == 0 && (x, y - 1) in visited && (x, y + 1) in visited)
  }

  /** What holds of the generator's state at the head of every iteration. */
  ghost predicate Inv(w: int, h: int, s: GenState) {
    && ValidDims(w, h)
    && IsGrid(s.maze, h, w)
    && (forall y, x {:trigger s.maze[y][x]} :: InBounds(h, w, y, x) ==> s.maze[y][x] == EMPTY || s.maze[y][x] == WALL)
    && (1, 1) in s.visited
    && (forall p :: p in s.visited ==> IsLattice(w, h, p))
    && (forall i :: 0 <= i < |s.stack| ==> s.stack[i] in s.visited)
    && (forall p :: p in s.visited ==> s.maze[p.1][p.0] == EMPTY)
    && (forall y, x {:trigger Justified(s.visited, x, y)} ::
          InBounds(h, w, y, x) && s.maze[y][x] == EMPTY ==> Justified(s.visited, x, y))
    // tree edges = vertices - 1: every carve opens two wall cells
    && |CellsOf(s.maze, EMPTY)| == 2 * |s.visited| - 1
    && s.step == |s.visited| - 1
    // a visited point that has left the stack has nothing left to carve
    && (forall p {:trigger Surrounded(w, h, s.visited, p)} ::
          p in s.visited && p !in s.stack ==> Surrounded(w, h, s.visited, p))
  }

  /** The carve branch: open the wall between `p` and its neighbour two
      cells towards `d`, open the neighbour, mark it visited and push it. */
  function Carve(w: int, h: int, s: GenState, p: (int, int), d: Compass): (r: GenState)
    requires IsGrid(s.maze, h, w) && IsLattice(w, h, p)
    requires Carvable(w, h, s.visited, Jump(p, d))
    ensures CarvedTo(w, h, s, r, p, d)
  {
    var (x, y) := p;
    var (dx, dy) := (2 * Dx(d), 2 * Dy(d));
    var (nx, ny) := (x + dx, y + dy);
    var maze := Set(s.maze, y + dy / 2, x + dx / 2, EMPTY);
    var maze := Set(maze, ny, nx, EMPTY);
    s.(maze := maze, visited := s.visited + {(nx, ny)}, stack := s.stack + [(nx, ny)], step := s.step + 1)
  }

  /** One iteration of `while stack`: carve towards the candidate the oracle
      picks, or pop when there is none. */
  function Step(w: int, h: int, s: GenState, pick: nat): (r: GenState)
    requires Inv(w, h, s) && |s.stack| > 0
    ensures var p := s.stack[|s.stack| - 1];
            var c := Candidates(w, h, s.visited, p);
            && (|c| == 0 ==> r == s.(stack := s.stack[..|s.stack| - 1]))
            && (|c| > 0 ==> exists d :: d in c && CarvedTo(w, h, s, r, p, d))
  {
    var p := s.stack[|s.stack| - 1];
    var c := Candidates(w, h, s.visited, p);
    if |c| == 0 then
      s.(stack := s.stack[..|s.stack| - 1])
    else
      var d := c[pick % |c|];
      assert p in s.visited;
      var r := Carve(w, h, s, p, d);
      assert d in c && CarvedTo(w, h, s, r, p, d);
      r
  }

  /** `r` is `s` after carving from `p` towards `d`: exactly the wall between
      and the target are opened, and the target is visited once and pushed. */
  ghost predicate CarvedTo(w: int, h: int, s: GenState, r: GenState, p: (int, int), d: Compass) {
    var q := Jump(p, d);
    && q !in s.visited
    && r.visited == s.visited + {q}
    && r.stack == s.stack + [q]
    && r.step == s.step + 1
    && OpensExactly(h, w, s.maze, r.maze, Between(p, d), q)
  }

  /** The initial state satisfies the loop invariant. */
  lemma InitInv(w: int, h: int)
    requires ValidDims(w, h)
    ensures Inv(w, h, Init(w, h))
  {
    var s := Init(w, h);
    CellsOfSetSame(Filled(h, w, WALL), 1, 1, EMPTY);
    assert CellsOf(Filled(h, w, WALL), EMPTY) == {};
  }

  /** A justified cell lies strictly inside the border. */
  lemma JustifiedInterior(w: int, h: int, visited: set<(int, int)>, x: int, y: int)
    requires forall p :: p in visited ==> IsLattice(w, h, p)
    ensures Justified(visited, x, y) ==> Interior(w, h, (x, y))
  {
    if x % 2 == 0 && y % 2 == 1 && (x - 1, y) in visited && (x + 1, y) in visited {
      assert IsLattice(w, h, (x - 1, y)) && IsLattice(w, h, (x + 1, y));
    } else if x % 2 == 1 && y % 2 == 0 && (x, y - 1) in visited && (x, y + 1) in visited {
      assert IsLattice(w, h, (x, y - 1)) && IsLattice(w, h, (x, y + 1));
    }
  }

  /** An invariant state has only walls on its border rows and columns. */
  lemma InvBorderWalls(w: int, h: int, s: GenState)
    requires Inv(w, h, s)
    ensures forall y, x {:trigger s.maze[y][x]} :: InBounds(h, w, y, x) && !Interior(w, h, (x, y)) ==> s.maze[y][x] == WALL
  {
    forall y, x | InBounds(h, w, y, x) && !Interior(w, h, (x, y))
      ensures s.maze[y][x] == WALL
    {
      JustifiedInterior(w, h, s.visited, x, y);
    }
  }

  /** Opening two distinct wall cells adds exactly those two to the open cells. */
  lemma OpenTwoCount(h: int, w: int, g1: Grid, g2: Grid, a: (int, int), b: (int, int))
    requires OpensExactly(h, w, g1, g2, a, b) && a != b
    requires g1[a.1][a.0] == WALL && g1[b.1][b.0] == WALL
    ensures |CellsOf(g2, EMPTY)| == |CellsOf(g1, EMPTY)| + 2
  {
    var extra := {(a.1, a.0), (b.1, b.0)};
    assert CellsOf(g2, EMPTY) == CellsOf(g1, EMPTY) + extra by {
      forall c | c in CellsOf(g2, EMPTY)
        ensures c in CellsOf(g1, EMPTY) + extra
      {
        if c !in extra {
          assert g2[c.0][c.1] == g1[c.0][c.1];
        }
      }
      forall c | c in CellsOf(g1, EMPTY) + extra
        ensures c in CellsOf(g2, EMPTY)
      {
        if c !in extra {
          assert g2[c.0][c.1] == g1[c.0][c.1];
        }
      }
    }
    assert CellsOf(g1, EMPTY) * extra == {};
    assert |extra| == 2;
  }

  /** The two cells a carve opens were walls: an open cell is justified,
      and neither the unvisited target nor the wall leading to it is. */
  lemma CarveOpensWalls(w: int, h: int, s: GenState, p: (int, int), d: Compass)
    requires Inv(w, h, s) && p in s.visited
    requires Carvable(w, h, s.visited, Jump(p, d))
    ensures s.maze[Jump(p, d).1][Jump(p, d).0] == WALL
    ensures s.maze[Between(p, d).1][Between(p, d).0] == WALL
  {
    var q, m := Jump(p, d), Between(p, d);
    assert IsLattice(w, h, p);
    assert !Justified(s.visited, q.0, q.1);
    match d
    case North => assert !Justified(s.visited, m.0, m.1);
    case South => assert !Justified(s.visited, m.0, m.1);
    case West => assert !Justified(s.visited, m.0, m.1);
    case East => assert !Justified(s.visited, m.0, m.1);
  }

  /** After a carve every open cell is still justified. */
  lemma CarveJustified(w: int, h: int, s: GenState, r: GenState, p: (int, int), d: Compass)
    requires CarvedTo(w, h, s, r, p, d)
    requires IsLattice(w, h, p) && p in s.visited
    requires forall y, x {:trigger s.maze[y][x]} :: InBounds(h, w, y, x) && s.maze[y][x] == EMPTY ==> Justified(s.visited, x, y)
    ensures forall y, x {:trigger r.maze[y][x]} :: InBounds(h, w, y, x) && r.maze[y][x] == EMPTY ==> Justified(r.visited, x, y)
  {
    var q, m := Jump(p, d), Between(p, d);
    forall y, x | InBounds(h, w, y, x) && r.maze[y][x] == EMPTY
      ensures Justified(r.visited, x, y)
    {
      if (x, y) == m {
        assert IsLattice(w, h, p);
        match d
        case North => assert (x, y - 1) == q && (x, y + 1) == p;
        case South => assert (x, y - 1) == p && (x, y + 1) == q;
        case West => assert (x - 1, y) == q && (x + 1, y) == p;
        case East => assert (x - 1, y) == p && (x + 1, y) == q;
      } else if (x, y) != q {
        assert s.maze[y][x] == EMPTY;
        assert Justified(s.visited, x, y);
      } else {
        assert IsLattice(w, h, p);
      }
    }
  }

  /** A carve step keeps the invariant. */
  lemma CarveInv(w: int, h: int, s: GenState, r: GenState, p: (int, int), d: Compass)
    requires Inv(w, h, s) && |s.stack| > 0 && p == s.stack[|s.stack| - 1]
    requires Carvable(w, h, s.visited, Jump(p, d))
    requires CarvedTo(w, h, s, r, p, d)
    ensures Inv(w, h, r)
  {
    var q, m := Jump(p, d), Between(p, d);
    assert p in s.visited;
    assert IsLattice(w, h, p);
    JumpLattice(w, h, p, d);
    BetweenInterior(w, h, p, d);
    CarveOpensWalls(w, h, s, p, d);
    OpenTwoCount(h, w, s.maze, r.maze, m, q);
    assert |r.visited| == |s.visited| + 1;
    CarveJustified(w, h, s, r, p, d);
    CarveClosure(w, h, s, r, p, d);
    forall y, x | InBounds(h, w, y, x)
      ensures r.maze[y][x] == EMPTY || r.maze[y][x] == WALL
    {
      if (x, y) != m && (x, y) != q {
        assert r.maze[y][x] == s.maze[y][x];
      }
    }
    forall v | v in r.visited
      ensures r.maze[v.1][v.0] == EMPTY
    {
      if v != q {
        assert IsLattice(w, h, v);
        assert r.maze[v.1][v.0] == s.maze[v.1][v.0];
      }
    }
  }

  /** After a carve the stack is still within `visited`, and every visited
      point off the stack still has nothing left to carve. */
  lemma CarveClosure(w: int, h: int, s: GenState, r: GenState, p: (int, int), d: Compass)
    requires CarvedTo(w, h, s, r, p, d)
    requires forall i :: 0 <= i < |s.stack| ==> s.stack[i] in s.visited
    requires forall v {:trigger Surrounded(w, h, s.visited, v)} ::
               v in s.visited && v !in s.stack ==> Surrounded(w, h, s.visited, v)
    ensures forall i :: 0 <= i < |r.stack| ==> r.stack[i] in r.visited
    ensures forall v {:trigger Surrounded(w, h, r.visited, v)} ::
              v in r.visited && v !in r.stack ==> Surrounded(w, h, r.visited, v)
  {
    forall v | v in r.visited && v !in r.stack
      ensures Surrounded(w, h, r.visited, v)
    {
      assert v in s.visited && v !in s.stack;
      assert Surrounded(w, h, s.visited, v);
    }
    forall i | 0 <= i < |r.stack|
      ensures r.stack[i] in r.visited
    {
      if i < |s.stack| {
        assert r.stack[i] == s.stack[i];
      }
    }
  }

  /** A pop step keeps the invariant: the popped point has nothing left to carve. */
  lemma PopInv(w: int, h: int, s: GenState)
    requires Inv(w, h, s) && |s.stack| > 0
    requires Candidates(w, h, s.visited, s.stack[|s.stack| - 1]) == []
    ensures Inv(w, h, s.(stack := s.stack[..|s.stack| - 1]))
  {
    var p := s.stack[|s.stack| - 1];
    var r := s.(stack := s.stack[..|s.stack| - 1]);
    assert !Carvable(w, h, s.visited, Jump(p, North));
    assert !Carvable(w, h, s.visited, Jump(p, South));
    assert !Carvable(w, h, s.visited, Jump(p, West));
    assert !Carvable(w, h, s.visited, Jump(p, East));
    assert Surrounded(w, h, s.visited, p);
    forall v | v in r.visited && v !in r.stack
      ensures Surrounded(w, h, r.visited, v)
    {
      if v != p {
        assert v !in s.stack;
      }
    }
  }

  /** Every iteration keeps the invariant, and either grows `visited` (by a
      lattice point) or keeps it and shrinks the stack. */
  lemma StepInv(w: int, h: int, s: GenState, pick: nat)
    requires Inv(w, h, s) && |s.stack| > 0
    ensures Inv(w, h, Step(w, h, s, pick))
    ensures var r := Step(w, h, s, pick);
            || (Points(w, h) - r.visited < Points(w, h) - s.visited)
            || (r.visited == s.visited && |r.stack| < |s.stack|)
  {
    var p := s.stack[|s.stack| - 1];
    var c := Candidates(w, h, s.visited, p);
    var r := Step(w, h, s, pick);
    if |c| == 0 {
      PopInv(w, h, s);
    } else {
      var d :| d in c && CarvedTo(w, h, s, r, p, d);
      CarveInv(w, h, s, r, p, d);
      var q := Jump(p, d);
      assert q in Points(w, h) - s.visited;
      assert q !in Points(w, h) - r.visited;
    }
  }

  /** The termination measure of the loop: twice the unvisited lattice
      points plus the stack height. */
  function Measure(w: int, h: int, s: GenState): int {
    2 * (|Points(w, h)| - |s.visited|) + |s.stack|
  }

  /** Visited lattice points are among all lattice points. */
  lemma VisitedWithinLattice(w: int, h: int, visited: set<(int, int)>)
    requires forall p :: p in visited ==> IsLattice(w, h, p)
    ensures visited <= Points(w, h)
    ensures |visited| <= |Points(w, h)|
  {
    forall p | p in visited
      ensures p in Points(w, h)
    {
      var (x, y) := p;
      assert IsLattice(w, h, (x, y));
    }
    SubsetCard(visited, Points(w, h));
  }

  /** The measure is a natural number that every iteration strictly decreases. */
  lemma StepDecreasesMeasure(w: int, h: int, s: GenState, pick: nat)
    requires Inv(w, h, s) && |s.stack| > 0
    ensures 0 <= Measure(w, h, Step(w, h, s, pick)) < Measure(w, h, s)
  {
    var p := s.stack[|s.stack| - 1];
    var c := Candidates(w, h, s.visited, p);
    var r := Step(w, h, s, pick);
    StepInv(w, h, s, pick);
    VisitedWithinLattice(w, h, r.visited);
    if |c| > 0 {
      var d :| d in c && CarvedTo(w, h, s, r, p, d);
      assert |r.visited| == |s.visited| + 1;
      assert |r.stack| == |s.stack| + 1;
    } else {
      assert r.visited == s.visited;
      assert |r.stack| == |s.stack| - 1;
    }
  }

  /** `generate_iterative`: run the carving loop until the stack empties.
      The result is a spanning tree over the lattice: every lattice point is
      open, the border is wall, and the open cells number exactly
      2 * (lattice points) - 1, i.e. one connecting cell per tree edge. */
  method GenerateIterative(w: int, h: int, oracle: nat -> nat) returns (maze: Grid)
    requires ValidDims(w, h)
    ensures IsGrid(maze, h, w)
    ensures forall y, x {:trigger maze[y][x]} :: InBounds(h, w, y, x) ==> maze[y][x] == EMPTY || maze[y][x] == WALL
    ensures forall y, x {:trigger maze[y][x]} :: InBounds(h, w, y, x) && !Interior(w, h, (x, y)) ==> maze[y][x] == WALL
    ensures forall p :: IsLattice(w, h, p) ==> maze[p.1][p.0] == EMPTY
    ensures |CellsOf(maze, EMPTY)| == 2 * ((h / 2) * (w / 2)) - 1
  {
    var s := Init(w, h);
    InitInv(w, h);
    while |s.stack| > 0
      invariant Inv(w, h, s)
      decreases Points(w, h) - s.visited, |s.stack|
    {
      StepInv(w, h, s, oracle(s.step));
      s := Step(w, h, s, oracle(s.step));
    }
    assert Closed(w, h, s.visited);
    ClosedCoversLattice(w, h, s.visited);
    assert s.visited == Points(w, h);
    PointsCard(w, h);
    InvBorderWalls(w, h, s);
    maze := s.maze;
  }

  datatype GenError = InvalidDimensions

  /** Construct a generator and run it: dimensions are first rounded up to
      odd; a dimension that is still below 3 cannot hold the start cell
      (1, 1) and fails. */
  method Generate(width: int, height: int, oracle: nat -> nat) returns (r: Result<Grid, GenError>)
    ensures var (w, h) := (OddDimension(width), OddDimension(height));
            && (r.Err? <==> !ValidDims(w, h))
            && (r.Ok? ==> IsGrid(r.value, h, w) && r.value[1][1] == EMPTY && r.value[h - 2][w - 2] == EMPTY)
            && (r.Ok? ==> |CellsOf(r.value, EMPTY)| == 2 * ((h / 2) * (w / 2)) - 1)
  {
    var w, h := OddDimension(width), OddDimension(height);
    if !ValidDims(w, h) {
      return Err(InvalidDimensions);
    }
    var maze := GenerateIterative(w, h, oracle);
    CornersLattice(w, h);
    r := Ok(maze);
  }
}
