/** The recursive generator of maze.py: a dictionary keyed `(x, y)` holding
    wall or empty tiles, carved by the recursive `visit`, run twice from
    (1, 1) and finally converted to a row-major 0/1 array. The source's
    `random.choice` becomes a caller-supplied oracle. */
module Carver {
  import opened Grid
  import opened Lattice

  datatype Tile = Wall | Empty

  /** The module-level `maze` dictionary. */
  type Board = map<(int, int), Tile>

  const WIDTH := 39
  const HEIGHT := 19

  /** The module's dimension assertions hold of the configured size. */
  lemma ConfiguredDimsValid()
    ensures ValidDims(WIDTH, HEIGHT)
  {
  }

  /** Every `(x, y)` of a `w` x `h` grid. */
  function Keys(w: int, h: int): set<(int, int)> {
    set x, y | 0 <= x < w && 0 <= y < h :: (x, y)
  }

  /** The board before carving: a wall at every `(x, y)` in range. */
  function InitialBoard(w: int, h: int): (b: Board)
    ensures b.Keys == Keys(w, h)
    ensures forall p :: p in b ==> b[p] == Wall
  {
    map p | p in Keys(w, h) :: Wall
  }

  /** The test `visit` makes before listing a direction: the bound test on
      the current cell and the target two cells away not yet in `hasVisited`. */
  predicate CanGo(w: int, h: int, hasVisited: seq<(int, int)>, x: int, y: int, d: Compass) {
    match d
    case North => y > 1 && (x, y - 2) !in hasVisited
    case South => y < h - 2 && (x, y + 2) !in hasVisited
    case West => x > 1 && (x - 2, y) !in hasVisited
    case East => x < w - 2 && (x + 2, y) !in hasVisited
  }

  /** The `unvisitedNeighbors` list of `visit`, in the source's order:
      each listed direction ranks above the one before it. */
  function UnvisitedNeighbours(w: int, h: int, hasVisited: seq<(int, int)>, x: int, y: int): (c: seq<Compass>)
    ensures forall d :: d in c <==> CanGo(w, h, hasVisited, x, y, d)
    ensures forall i :: 0 <= i < |c| - 1 ==> Rank(c[i]) < Rank(c[i + 1])
  {
    var n, s, we, e := CanGo(w, h, hasVisited, x, y, North), CanGo(w, h, hasVisited, x, y, South),
                       CanGo(w, h, hasVisited, x, y, West), CanGo(w, h, hasVisited, x, y, East);
    var c := Listing(n, s, we, e);
    assert forall d :: Chosen(n, s, we, e, d) == CanGo(w, h, hasVisited, x, y, d);
    c
  }

  /** Which directions the four tests let through. */
  predicate Chosen(n: bool, s: bool, w: bool, e: bool, d: Compass) {
    match d
    case North => n
    case South => s
    case West => w
    case East => e
  }

  /** The four `if`s of the listing, on their outcomes alone. */
  function Listing(n: bool, s: bool, w: bool, e: bool): (c: seq<Compass>)
    ensures forall d :: d in c <==> Chosen(n, s, w, e, d)
    ensures forall i :: 0 <= i < |c| - 1 ==> Rank(c[i]) < Rank(c[i + 1])
  {
    var c := (if n then [North] else []) + (if s then [South] else []) +
             (if w then [West] else []) + (if e then [East] else []);
    assert (North in c <==> n) && (South in c <==> s) && (West in c <==> w) && (East in c <==> e);
    assert forall d :: d in c <==> Chosen(n, s, w, e, d) by {
      forall d
        ensures d in c <==> Chosen(n, s, w, e, d)
      {
        assert d.North? || d.South? || d.West? || d.East?;
      }
    }
    c
  }

  /** From a lattice point, a direction passes the bound test exactly when
      its target is a lattice point; it is listed exactly when that target
      is also unvisited. */
  lemma CanGoLattice(w: int, h: int, hasVisited: seq<(int, int)>, x: int, y: int, d: Compass)
    requires ValidDims(w, h) && IsLattice(w, h, (x, y))
    ensures CanGo(w, h, hasVisited, x, y, d) <==>
              IsLattice(w, h, Jump((x, y), d)) && Jump((x, y), d) !in hasVisited
  {
    match d
    case North => assert Jump((x, y), d) == (x, y - 2);
    case South => assert Jump((x, y), d) == (x, y + 2);
    case West => assert Jump((x, y), d) == (x - 2, y);
    case East => assert Jump((x, y), d) == (x + 2, y);
  }

  /** A lattice point with no listed direction has every lattice neighbour visited. */
  lemma NoneLeftSurrounded(w: int, h: int, hasVisited: seq<(int, int)>, x: int, y: int)
    requires ValidDims(w, h) && IsLattice(w, h, (x, y))
    ensures UnvisitedNeighbours(w, h, hasVisited, x, y) == [] <==> Surrounded(w, h, Elems(hasVisited), (x, y))
  {
    CanGoLattice(w, h, hasVisited, x, y, North);
    CanGoLattice(w, h, hasVisited, x, y, South);
    CanGoLattice(w, h, hasVisited, x, y, West);
    CanGoLattice(w, h, hasVisited, x, y, East);
    if UnvisitedNeighbours(w, h, hasVisited, x, y) != [] {
      assert UnvisitedNeighbours(w, h, hasVisited, x, y)[0] in UnvisitedNeighbours(w, h, hasVisited, x, y);
    }
  }

  /** `b1` grows from `b0`: same keys, no empty tile walled again, and only
      interior tiles newly carved. */
  predicate Grows(w: int, h: int, b0: Board, b1: Board) {
    && b1.Keys == b0.Keys
    && (forall p :: p in b0 && b0[p] == Empty ==> b1[p] == Empty)
    && (forall p :: p in b1 && b1[p] == Empty && b0[p] == Wall ==> Interior(w, h, p))
  }

  /** `a` is a prefix of `b`: `hasVisited` is only ever appended to. */
  ghost predicate Extends<T>(a: seq<T>, b: seq<T>) {
    |a| <= |b| && b[..|a|] == a
  }

  predicate AllLattice(w: int, h: int, s: seq<(int, int)>) {
    forall p :: p in s ==> IsLattice(w, h, p)
  }

  /** Every entry of `s` not already in `before` has all its lattice
      neighbours in `s`. */
  ghost predicate NewSurrounded(w: int, h: int, before: seq<(int, int)>, s: seq<(int, int)>) {
    forall p {:trigger Surrounded(w, h, Elems(s), p)} :: p in s && p !in before ==> Surrounded(w, h, Elems(s), p)
  }

  /** Every entry of `s` not already in `before` is an empty tile of `b`. */
  predicate NewEmpty(before: seq<(int, int)>, s: seq<(int, int)>, b: Board) {
    forall p :: p in s && p !in before ==> p in b && b[p] == Empty
  }

  /** `visit(x, y)`: open `(x, y)`, then while some listed direction remains,
      open the wall towards the one the oracle picks, append its target to
      `hasVisited` and visit it. Returns only once no direction is listed;
      empty tiles are never walled again, only interior tiles are carved,
      and every cell it appends ends up empty with every lattice neighbour
      visited. */
  method Visit(w: int, h: int, x: int, y: int, board: Board, hasVisited: seq<(int, int)>, oracle: nat -> nat)
    returns (board': Board, visited': seq<(int, int)>)
    requires ValidDims(w, h)
    requires board.Keys == Keys(w, h)
    requires IsLattice(w, h, (x, y)) && (x, y) in hasVisited
    requires AllLattice(w, h, hasVisited)
    ensures Grows(w, h, board, board')
    ensures (x, y) in board' && board'[(x, y)] == Empty
    ensures Extends(hasVisited, visited')
    ensures AllLattice(w, h, visited')
    ensures UnvisitedNeighbours(w, h, visited', x, y) == []
    ensures Surrounded(w, h, Elems(visited'), (x, y))
    ensures NewSurrounded(w, h, hasVisited, visited')
    ensures NewEmpty(hasVisited, visited', board')
    decreases Points(w, h) - Elems(hasVisited)
  {
    OpenInterior(w, h, board, (x, y));
    board' := board[(x, y) := Empty];
    visited' := hasVisited;
    var candidates := UnvisitedNeighbours(w, h, visited', x, y);
    while |candidates| > 0
      invariant Grows(w, h, board, board')
      invariant (x, y) in board' && board'[(x, y)] == Empty
      invariant Extends(hasVisited, visited')
      invariant AllLattice(w, h, visited')
      invariant NewSurrounded(w, h, hasVisited, visited')
      invariant NewEmpty(hasVisited, visited', board')
      invariant candidates == UnvisitedNeighbours(w, h, visited', x, y)
      decreases Points(w, h) - Elems(visited')
    {
      var d := candidates[oracle(|visited'|) % |candidates|];
      var next := Jump((x, y), d);
      ghost var before := visited';
      ghost var walled := board';
      ListedStep(w, h, before, x, y, d);
      OpenInterior(w, h, walled, Between((x, y), d));
      GrowsTrans(w, h, board, walled, walled[Between((x, y), d) := Empty]);
      board' := board'[Between((x, y), d) := Empty];
      visited' := visited' + [next];
      AppendFacts(w, h, hasVisited, before, next);
      var board'', visited'' := Visit(w, h, next.0, next.1, board', visited', oracle);
      AfterChild(w, h, x, y, board, hasVisited, before, next, board', board'', visited'');
      board', visited' := board'', visited'';
      candidates := UnvisitedNeighbours(w, h, visited', x, y);
    }
    NoneLeftSurrounded(w, h, visited', x, y);
  }

  /** A listed direction leads to an unvisited lattice point through an interior wall. */
  lemma ListedStep(w: int, h: int, s: seq<(int, int)>, x: int, y: int, d: Compass)
    requires ValidDims(w, h) && IsLattice(w, h, (x, y))
    requires d in UnvisitedNeighbours(w, h, s, x, y)
    ensures IsLattice(w, h, Jump((x, y), d)) && Jump((x, y), d) !in s
    ensures Interior(w, h, Between((x, y), d)) && Between((x, y), d) != (x, y)
  {
    CanGoLattice(w, h, s, x, y, d);
    BetweenInterior(w, h, (x, y), d);
  }

  /** Opening an interior tile of a full board grows it. */
  lemma OpenInterior(w: int, h: int, b: Board, q: (int, int))
    requires b.Keys == Keys(w, h) && Interior(w, h, q)
    ensures q in b && Grows(w, h, b, b[q := Empty])
  {
    assert q in Keys(w, h);
  }

  lemma GrowsTrans(w: int, h: int, b0: Board, b1: Board, b2: Board)
    requires Grows(w, h, b0, b1) && Grows(w, h, b1, b2)
    ensures Grows(w, h, b0, b2)
  {
  }

  /** Appending an unvisited lattice point keeps the prefix, the lattice and
      strictly shrinks the unvisited lattice. */
  lemma AppendFacts(w: int, h: int, hasVisited: seq<(int, int)>, before: seq<(int, int)>, next: (int, int))
    requires Extends(hasVisited, before) && AllLattice(w, h, before)
    requires IsLattice(w, h, next) && next !in before
    ensures Extends(hasVisited, before + [next]) && Extends(before, before + [next])
    ensures AllLattice(w, h, before + [next]) && next in before + [next]
    ensures Points(w, h) - Elems(before + [next]) < Points(w, h) - Elems(hasVisited)
    ensures Points(w, h) - Elems(before + [next]) < Points(w, h) - Elems(before)
  {
    var s := before + [next];
    assert s[..|before|] == before;
    PrefixTrans(hasVisited, before, s);
    PrefixElems(hasVisited, before);
    assert Elems(s) == Elems(before) + {next};
    assert next in Points(w, h);
  }

  /** What the loop keeps after a child visit returns. */
  lemma AfterChild(w: int, h: int, x: int, y: int, board: Board, hasVisited: seq<(int, int)>,
                   before: seq<(int, int)>, next: (int, int), carved: Board, board'': Board, visited'': seq<(int, int)>)
    requires Grows(w, h, board, carved) && (x, y) in carved && carved[(x, y)] == Empty
    requires Extends(hasVisited, before) && Extends(before, before + [next])
    requires IsLattice(w, h, next) && next !in before
    requires NewSurrounded(w, h, hasVisited, before)
    requires NewEmpty(hasVisited, before, carved)
    requires Grows(w, h, carved, board'')
    requires Extends(before + [next], visited'')
    requires Surrounded(w, h, Elems(visited''), next) && next in board'' && board''[next] == Empty
    requires NewSurrounded(w, h, before + [next], visited'')
    requires NewEmpty(before + [next], visited'', board'')
    ensures Grows(w, h, board, board'') && (x, y) in board'' && board''[(x, y)] == Empty
    ensures Extends(hasVisited, visited'')
    ensures NewSurrounded(w, h, hasVisited, visited'')
    ensures NewEmpty(hasVisited, visited'', board'')
    ensures Points(w, h) - Elems(visited'') < Points(w, h) - Elems(before)
  {
    var s := before + [next];
    GrowsTrans(w, h, board, carved, board'');
    PrefixTrans(hasVisited, before, s);
    PrefixTrans(hasVisited, s, visited'');
    PrefixElems(before, s);
    PrefixElems(s, visited'');
    assert next in s;
    forall p | p in visited'' && p !in hasVisited
      ensures Surrounded(w, h, Elems(visited''), p)
    {
      if p in s && p != next {
        assert p in before;
        SurroundedMono(w, h, Elems(before), Elems(visited''), p);
      }
    }
    forall p | p in visited'' && p !in hasVisited
      ensures p in board'' && board''[p] == Empty
    {
      if p in s && p != next {
        assert p in before;
      }
    }
    assert next in Points(w, h) && next !in Elems(before) && next in Elems(visited'');
  }

  /** Growing the visited set keeps a point surrounded. */
  lemma SurroundedMono(w: int, h: int, a: set<(int, int)>, b: set<(int, int)>, p: (int, int))
    requires a <= b && Surrounded(w, h, a, p)
    ensures Surrounded(w, h, b, p)
  {
  }

  /** A prefix's elements are among the whole sequence's. */
  lemma PrefixElems<T>(a: seq<T>, b: seq<T>)
    requires Extends(a, b)
    ensures Elems(a) <= Elems(b)
  {
    forall v | v in Elems(a)
      ensures v in Elems(b)
    {
      var i :| 0 <= i < |a| && a[i] == v;
      assert b[i] == v;
    }
  }

  lemma PrefixTrans<T>(a: seq<T>, b: seq<T>, c: seq<T>)
    requires Extends(a, b) && Extends(b, c)
    ensures Extends(a, c)
  {
    assert c[..|a|] == c[..|b|][..|a|];
  }

  /** The first pass carves every lattice point: `visit` returns with (1, 1)
      and every appended point surrounded, so the visited points form a
      closed set holding (1, 1), which is the whole lattice. */
  lemma CarvedLattice(w: int, h: int, b: Board, v: seq<(int, int)>)
    requires ValidDims(w, h)
    requires Extends([(1, 1)], v) && (1, 1) in b && b[(1, 1)] == Empty
    requires Surrounded(w, h, Elems(v), (1, 1))
    requires NewSurrounded(w, h, [(1, 1)], v)
    requires NewEmpty([(1, 1)], v, b)
    ensures forall p :: IsLattice(w, h, p) ==> p in b && b[p] == Empty
  {
    assert v[0] == (1, 1);
    forall p | p in Elems(v)
      ensures Surrounded(w, h, Elems(v), p)
    {
      if p != (1, 1) {
        assert p in v && p !in [(1, 1)];
      }
    }
    ClosedCoversLattice(w, h, Elems(v));
    forall p | IsLattice(w, h, p)
      ensures p in b && b[p] == Empty
    {
      assert p in Points(w, h);
    }
  }

  /** The module's script: with `hasVisited` reset to `[(1, 1)]`, visit
      (1, 1); then reset it again and visit (1, 1) a second time on the
      already carved board. The first pass opens every lattice point; the
      second only opens further walls; neither ever opens the border. */
  method CarveTwice(w: int, h: int, oracle1: nat -> nat, oracle2: nat -> nat) returns (first: Board, second: Board)
    requires ValidDims(w, h)
    ensures first.Keys == Keys(w, h)
    ensures forall p :: IsLattice(w, h, p) ==> p in first && first[p] == Empty
    ensures forall p :: p in first && first[p] == Empty ==> Interior(w, h, p)
    ensures Grows(w, h, first, second)
    ensures forall p :: p in second && second[p] == Empty ==> Interior(w, h, p)
  {
    var start := InitialBoard(w, h);
    var v1, v2;
    first, v1 := Visit(w, h, 1, 1, start, [(1, 1)], oracle1);
    CarvedLattice(w, h, first, v1);
    second, v2 := Visit(w, h, 1, 1, first, [(1, 1)], oracle2);
    GrowsTrans(w, h, start, first, second);
  }

  /** `maze_array`: row `y`, column `x` holds 1 for a wall tile at `(x, y)`, 0 otherwise. */
  function ToArray(w: nat, h: nat, b: Board): (g: Grid)
    requires b.Keys == Keys(w, h)
    ensures IsGrid(g, h, w)
    ensures forall y, x {:trigger g[y][x]} :: InBounds(h, w, y, x) ==> (g[y][x] == WALL <==> b[(x, y)] == Wall)
    ensures forall y, x {:trigger g[y][x]} :: InBounds(h, w, y, x) ==> g[y][x] == WALL || g[y][x] == EMPTY
  {
    seq(h, y requires 0 <= y < h => seq(w, x requires 0 <= x < w => if b[(x, y)] == Wall then WALL else EMPTY))
  }

  /** Reads a 0/1 array back into a board: the inverse of `ToArray`. */
  function FromArray(w: nat, h: nat, g: Grid): (b: Board)
    requires IsGrid(g, h, w)
    ensures b.Keys == Keys(w, h)
  {
    map p | p in Keys(w, h) :: if g[p.1][p.0] == WALL then Wall else Empty
  }

  /** Converting a board to the array loses nothing. */
  lemma ToArrayRoundTrip(w: nat, h: nat, b: Board)
    requires b.Keys == Keys(w, h)
    ensures FromArray(w, h, ToArray(w, h, b)) == b
  {
    var r := FromArray(w, h, ToArray(w, h, b));
    assert r.Keys == b.Keys;
    forall p | p in b
      ensures r[p] == b[p]
    {
      ToArrayCell(w, h, b, p);
    }
  }

  lemma ToArrayCell(w: nat, h: nat, b: Board, p: (int, int))
    requires b.Keys == Keys(w, h) && p in b
    ensures p in FromArray(w, h, ToArray(w, h, b)) && FromArray(w, h, ToArray(w, h, b))[p] == b[p]
  {
    assert InBounds(h, w, p.1, p.0);
  }

  /** Every 0/1 array of the right shape is the conversion of exactly one board. */
  lemma FromArrayRoundTrip(w: nat, h: nat, g: Grid)
    requires IsGrid(g, h, w)
    requires forall y, x {:trigger g[y][x]} :: InBounds(h, w, y, x) ==> g[y][x] == WALL || g[y][x] == EMPTY
    ensures ToArray(w, h, FromArray(w, h, g)) == g
  {
    var r := ToArray(w, h, FromArray(w, h, g));
    forall y | 0 <= y < h
      ensures r[y] == g[y]
    {
      forall x | 0 <= x < w
        ensures r[y][x] == g[y][x]
      {
        assert (x, y) in Keys(w, h);
      }
    }
  }

  /** The JSON record the script writes, less its timestamp and `solved` flag. */
  datatype MazeFile = MazeFile(maze: Grid, start: (int, int), end: (int, int), shape: (int, int))

  /** The script on a `w` x `h` grid, with the recorded start `[1, 1]` and
      end `[h - 2, w - 2]` (row, column). */
  method Script(w: nat, h: nat, oracle1: nat -> nat, oracle2: nat -> nat) returns (f: MazeFile)
    requires ValidDims(w, h)
    ensures f.shape == (h, w) && IsGrid(f.maze, h, w)
    ensures f.start == (1, 1) && f.end == (h - 2, w - 2)
    ensures forall y, x {:trigger f.maze[y][x]} :: InBounds(h, w, y, x) ==> f.maze[y][x] == WALL || f.maze[y][x] == EMPTY
    ensures forall y, x {:trigger f.maze[y][x]} :: InBounds(h, w, y, x) && !Interior(w, h, (x, y)) ==> f.maze[y][x] == WALL
    ensures forall y, x {:trigger f.maze[y][x]} :: InBounds(h, w, y, x) && IsLattice(w, h, (x, y)) ==> f.maze[y][x] == EMPTY
    ensures f.maze[f.start.0][f.start.1] == EMPTY && f.maze[f.end.0][f.end.1] == EMPTY
  {
    var first, second := CarveTwice(w, h, oracle1, oracle2);
    var g := ToArray(w, h, second);
    CarvedArray(w, h, first, second);
    CornersLattice(w, h);
    f := MazeFile(g, (1, 1), (h - 2, w - 2), (h, w));
  }

  /** The array of a board whose empty tiles are interior and include every
      lattice point. */
  lemma CarvedArray(w: nat, h: nat, first: Board, second: Board)
    requires first.Keys == Keys(w, h)
    requires forall p :: IsLattice(w, h, p) ==> p in first && first[p] == Empty
    requires Grows(w, h, first, second)
    requires forall p :: p in second && second[p] == Empty ==> Interior(w, h, p)
    ensures forall y, x {:trigger ToArray(w, h, second)[y][x]} :: InBounds(h, w, y, x) && !Interior(w, h, (x, y)) ==> ToArray(w, h, second)[y][x] == WALL
    ensures forall y, x {:trigger ToArray(w, h, second)[y][x]} :: InBounds(h, w, y, x) && IsLattice(w, h, (x, y)) ==> ToArray(w, h, second)[y][x] == EMPTY
  {
    var g := ToArray(w, h, second);
    forall y, x | InBounds(h, w, y, x)
      ensures (!Interior(w, h, (x, y)) ==> g[y][x] == WALL) && (IsLattice(w, h, (x, y)) ==> g[y][x] == EMPTY)
    {
      assert (x, y) in Keys(w, h);
    }
  }

  /** The whole script on the configured 39 x 19 grid. */
  method MazeScript(oracle1: nat -> nat, oracle2: nat -> nat) returns (f: MazeFile)
    ensures f.shape == (HEIGHT, WIDTH) && IsGrid(f.maze, HEIGHT, WIDTH)
    ensures f.start == (1, 1) && f.end == (HEIGHT - 2, WIDTH - 2)
    ensures f.maze[f.start.0][f.start.1] == EMPTY && f.maze[f.end.0][f.end.1] == EMPTY
  {
    ConfiguredDimsValid();
    f := Script(WIDTH, HEIGHT, oracle1, oracle2);
  }
}
