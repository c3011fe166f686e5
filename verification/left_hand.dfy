/** The left-hand wall follower of left_hand_algo.py. Positions are
    `(y, x)` pairs and headings index `DIRS` (up, right, down, left). Each
    step turns left if it can, else goes forward, else right, else back. */
module LeftHand {
  import opened Grid
  import opened Wrappers

  /** UP, RIGHT, DOWN, LEFT as `(dy, dx)`. */
  const DIRS: seq<(int, int)> := [(-1, 0), (0, 1), (1, 0), (0, -1)]

  /** Left, forward, right, back, relative to the current heading. */
  const TURNS: seq<int> := [-1, 0, 1, 2]

  /** The `max_steps` default. */
  const DEFAULT_MAX_STEPS := 10000000

  /** An index into `DIRS`. */
  type Heading = d: nat | d < 4

  /** The cell one step from `p` along heading `d`. */
  function Neighbour(p: (int, int), d: Heading): (int, int)
  {
    (p.0 + DIRS[d].0, p.1 + DIRS[d].1)
  }

  /** `is_open`: inside the grid and holding 0. */
  predicate IsOpen(g: Grid, h: int, w: int, p: (int, int))
    requires IsGrid(g, h, w)
  {
    InBounds(h, w, p.0, p.1) && g[p.0][p.1] == EMPTY
  }

  /** Reduces a heading sum into 0..3; for the sums that occur this is
      Python's `% 4`, written without the modulus (see `WrapMod`). */
  function Wrap(t: int): Heading
    requires -4 <= t < 8
  {
    if t < 0 then t + 4 else if t >= 4 then t - 4 else t
  }

  lemma WrapMod(t: int)
    requires -4 <= t < 8
    ensures Wrap(t) == t % 4
  {
  }

  /** Stepping along a heading reaches an adjacent cell, and the opposite
      heading leads back. */
  lemma NeighbourFacts(p: (int, int), d: Heading)
    ensures Adjacent(p, Neighbour(p, d)) && Neighbour(p, d) != p
    ensures Neighbour(Neighbour(p, d), Wrap(d + 2)) == p
  {
  }

  /** The initial heading: the first of UP, RIGHT, DOWN, LEFT whose
      neighbour of `start` is open, or `None` when there is none. */
  function InitialHeading(g: Grid, h: int, w: int, start: (int, int)): (r: Option<Heading>)
    requires IsGrid(g, h, w)
    ensures r.Some? ==> IsOpen(g, h, w, Neighbour(start, r.value))
    ensures r.Some? ==> forall d: Heading :: d < r.value ==> !IsOpen(g, h, w, Neighbour(start, d))
    ensures r.None? <==> forall d: Heading :: !IsOpen(g, h, w, Neighbour(start, d))
  {
    FirstOpen(g, h, w, start, 0)
  }

  function FirstOpen(g: Grid, h: int, w: int, start: (int, int), k: nat): (r: Option<Heading>)
    requires IsGrid(g, h, w) && k <= 4
    ensures r.Some? ==> k <= r.value && IsOpen(g, h, w, Neighbour(start, r.value))
    ensures r.Some? ==> forall d: Heading :: k <= d < r.value ==> !IsOpen(g, h, w, Neighbour(start, d))
    ensures r.None? <==> forall d: Heading :: k <= d ==> !IsOpen(g, h, w, Neighbour(start, d))
    decreases 4 - k
  {
    if k == 4 then None
    else if IsOpen(g, h, w, Neighbour(start, k)) then Some(k)
    else FirstOpen(g, h, w, start, k + 1)
  }

  /** How far round from the left a heading `nd` is, seen from heading
      `dir`: left 0, forward 1, right 2, back 3. */
  function Rank(dir: Heading, nd: Heading): nat
  {
    Wrap(nd - dir + 1)
  }

  /** The `k`-th turn from `dir` is the heading of rank `k`, and ranks tell
      headings apart. */
  lemma TurnRank(dir: Heading, k: nat)
    requires k < 4
    ensures Rank(dir, Wrap(dir + TURNS[k])) == k
    ensures forall d: Heading :: Rank(dir, d) == k ==> d == Wrap(dir + TURNS[k])
  {
  }

  /** The heading reached by the `k`-th turn from `dir`. */
  function Turn(dir: Heading, k: nat): (nd: Heading)
    requires k < 4
    ensures Rank(dir, nd) == k
  {
    TurnRank(dir, k);
    Wrap(dir + TURNS[k])
  }

  /** The walker's state: where it stands and the heading it last took. */
  datatype Walker = Walker(pos: (int, int), dir: Heading)

  /** The `for turn in [-1, 0, 1, 2]` loop from turn `k` on: the first
      open heading among the remaining turns, or no move. */
  function TryTurns(g: Grid, h: int, w: int, s: Walker, k: nat): Walker
    requires IsGrid(g, h, w) && k <= 4
    decreases 4 - k
  {
    if k == 4 then s
    else
      var nd := Turn(s.dir, k);
      if IsOpen(g, h, w, Neighbour(s.pos, nd)) then Walker(Neighbour(s.pos, nd), nd)
      else TryTurns(g, h, w, s, k + 1)
  }

  /** The turns from `k` on pick the open heading of least rank among
      those of rank `k` or more, and stay put when there is none. */
  lemma {:induction false} TryTurnsSpec(g: Grid, h: int, w: int, s: Walker, k: nat)
    requires IsGrid(g, h, w) && k <= 4
    ensures var r := TryTurns(g, h, w, s, k);
            r == s <==> forall d: Heading :: k <= Rank(s.dir, d) ==> !IsOpen(g, h, w, Neighbour(s.pos, d))
    ensures var r := TryTurns(g, h, w, s, k);
            r != s ==> r.pos == Neighbour(s.pos, r.dir) && IsOpen(g, h, w, r.pos) && k <= Rank(s.dir, r.dir)
    ensures var r := TryTurns(g, h, w, s, k);
            r != s ==> forall d: Heading :: k <= Rank(s.dir, d) && IsOpen(g, h, w, Neighbour(s.pos, d)) ==>
              Rank(s.dir, r.dir) <= Rank(s.dir, d)
    decreases 4 - k
  {
    if k < 4 {
      TurnRank(s.dir, k);
      var nd := Turn(s.dir, k);
      NeighbourFacts(s.pos, nd);
      if !IsOpen(g, h, w, Neighbour(s.pos, nd)) {
        TryTurnsSpec(g, h, w, s, k + 1);
      }
    }
  }

  /** One iteration of the walk: the four turns tried in order. */
  function Step(g: Grid, h: int, w: int, s: Walker): Walker
    requires IsGrid(g, h, w)
  {
    var l, f, rt, b := Turn(s.dir, 0), Turn(s.dir, 1), Turn(s.dir, 2), Turn(s.dir, 3);
    if IsOpen(g, h, w, Neighbour(s.pos, l)) then Walker(Neighbour(s.pos, l), l)
    else if IsOpen(g, h, w, Neighbour(s.pos, f)) then Walker(Neighbour(s.pos, f), f)
    else if IsOpen(g, h, w, Neighbour(s.pos, rt)) then Walker(Neighbour(s.pos, rt), rt)
    else if IsOpen(g, h, w, Neighbour(s.pos, b)) then Walker(Neighbour(s.pos, b), b)
    else s
  }

  /** Unrolling the turn loop gives the step. */
  lemma StepIsTryTurns(g: Grid, h: int, w: int, s: Walker)
    requires IsGrid(g, h, w)
    ensures Step(g, h, w, s) == TryTurns(g, h, w, s, 0)
  {
    assert TryTurns(g, h, w, s, 2) == TryTurns(g, h, w, s, 2);
    assert TryTurns(g, h, w, s, 3) == TryTurns(g, h, w, s, 3);
    assert TryTurns(g, h, w, s, 4) == s;
  }

  /** A step moves to the open neighbour of least rank and takes its
      heading: it turns left whenever it can, and goes back only when
      nothing else is open; with no open neighbour it stays put. */
  lemma StepSpec(g: Grid, h: int, w: int, s: Walker)
    requires IsGrid(g, h, w)
    ensures Step(g, h, w, s) == s <==> forall d: Heading :: !IsOpen(g, h, w, Neighbour(s.pos, d))
    ensures Step(g, h, w, s) != s ==>
              Step(g, h, w, s).pos == Neighbour(s.pos, Step(g, h, w, s).dir) && IsOpen(g, h, w, Step(g, h, w, s).pos)
    ensures Step(g, h, w, s) != s ==>
              forall d: Heading :: IsOpen(g, h, w, Neighbour(s.pos, d)) ==>
                Rank(s.dir, Step(g, h, w, s).dir) <= Rank(s.dir, d)
  {
    StepIsTryTurns(g, h, w, s);
    TryTurnsSpec(g, h, w, s, 0);
  }

  /** Some neighbour of `p` is open. */
  predicate HasOpenNeighbour(g: Grid, h: int, w: int, p: (int, int))
    requires IsGrid(g, h, w)
  {
    IsOpen(g, h, w, Neighbour(p, 0)) || IsOpen(g, h, w, Neighbour(p, 1)) ||
    IsOpen(g, h, w, Neighbour(p, 2)) || IsOpen(g, h, w, Neighbour(p, 3))
  }

  lemma BackOpen(g: Grid, h: int, w: int, p: (int, int), d: Heading)
    requires IsGrid(g, h, w) && IsOpen(g, h, w, Neighbour(p, d))
    ensures HasOpenNeighbour(g, h, w, p)
  {
  }

  /** With an open neighbour, a step moves to an adjacent open cell, and
      the heading opposite to the new one leads back. */
  lemma StepMoves(g: Grid, h: int, w: int, s: Walker)
    requires IsGrid(g, h, w) && HasOpenNeighbour(g, h, w, s.pos)
    ensures Step(g, h, w, s) != s && IsOpen(g, h, w, Step(g, h, w, s).pos)
    ensures Adjacent(s.pos, Step(g, h, w, s).pos)
    ensures Neighbour(Step(g, h, w, s).pos, Wrap(Step(g, h, w, s).dir + 2)) == s.pos
  {
    var r := Step(g, h, w, s);
    StepSpec(g, h, w, s);
    NeighbourFacts(s.pos, r.dir);
  }

  /** The walker stands on an open cell that has an open neighbour. */
  predicate Free(g: Grid, h: int, w: int, s: Walker)
    requires IsGrid(g, h, w)
  {
    IsOpen(g, h, w, s.pos) && HasOpenNeighbour(g, h, w, s.pos)
  }

  /** A free walker moves to an adjacent cell and is free again there: the
      cell it left is open behind it. */
  lemma FreeStep(g: Grid, h: int, w: int, s: Walker)
    requires IsGrid(g, h, w) && Free(g, h, w, s)
    ensures Step(g, h, w, s) != s && Adjacent(s.pos, Step(g, h, w, s).pos)
    ensures Free(g, h, w, Step(g, h, w, s))
  {
    StepMoves(g, h, w, s);
    var r := Step(g, h, w, s);
    BackOpen(g, h, w, r.pos, Wrap(r.dir + 2));
  }

  /** `x0` after `n` applications of `f`. */
  function Iterate<T>(f: T -> T, x0: T, n: nat): T
  {
    if n == 0 then x0 else f(Iterate(f, x0, n - 1))
  }

  /** A property `f` preserves holds after any number of applications. */
  lemma {:induction false} IterateKeeps<T>(f: T -> T, p: T -> bool, x0: T, n: nat)
    requires p(x0)
    requires forall x :: p(x) ==> p(f(x))
    ensures p(Iterate(f, x0, n))
  {
    if n > 0 {
      IterateKeeps(f, p, x0, n - 1);
    }
  }

  /** A property `f` preserves and establishes holds after one or more
      applications. */
  lemma {:induction false} IterateKeepsAfter<T>(f: T -> T, p: T -> bool, x0: T, n: nat)
    requires p(f(x0)) && n >= 1
    requires forall x :: p(x) ==> p(f(x))
    ensures p(Iterate(f, x0, n))
  {
    if n > 1 {
      IterateKeepsAfter(f, p, x0, n - 1);
    }
  }

  /** The step on grid `g`, as a value. */
  function StepOf(g: Grid, h: int, w: int): Walker -> Walker
    requires IsGrid(g, h, w)
  {
    s => Step(g, h, w, s)
  }

  /** The walker after `n` iterations of the `while` loop. */
  function Walk(g: Grid, h: int, w: int, s0: Walker, n: nat): Walker
    requires IsGrid(g, h, w)
  {
    Iterate(StepOf(g, h, w), s0, n)
  }

  /** Each iteration is one more step. */
  lemma WalkNext(g: Grid, h: int, w: int, s0: Walker, n: nat)
    requires IsGrid(g, h, w)
    ensures Walk(g, h, w, s0, n + 1) == Step(g, h, w, Walk(g, h, w, s0, n))
  {
  }

  /** The walker never leaves the grid when it starts inside it. */
  lemma WalkInBounds(g: Grid, h: int, w: int, s0: Walker, n: nat)
    requires IsGrid(g, h, w) && InBounds(h, w, s0.pos.0, s0.pos.1)
    ensures InBounds(h, w, Walk(g, h, w, s0, n).pos.0, Walk(g, h, w, s0, n).pos.1)
  {
    var p := (s: Walker) => InBounds(h, w, s.pos.0, s.pos.1);
    forall s | p(s)
      ensures p(StepOf(g, h, w)(s))
    {
      StepSpec(g, h, w, s);
    }
    IterateKeeps(StepOf(g, h, w), p, s0, n);
  }

  /** From a cell with an open neighbour, every iteration after the first
      ends on an open cell. */
  lemma WalkOpen(g: Grid, h: int, w: int, s0: Walker, n: nat)
    requires IsGrid(g, h, w) && HasOpenNeighbour(g, h, w, s0.pos) && n >= 1
    ensures IsOpen(g, h, w, Walk(g, h, w, s0, n).pos)
  {
    var p := (s: Walker) => IsOpen(g, h, w, s.pos);
    forall s | p(s)
      ensures p(StepOf(g, h, w)(s))
    {
      StepSpec(g, h, w, s);
    }
    StepMoves(g, h, w, s0);
    IterateKeepsAfter(StepOf(g, h, w), p, s0, n);
  }

  /** From an open start facing an open cell the walker is never stuck:
      it stays free, because the cell it just left is open behind it. */
  lemma WalkFree(g: Grid, h: int, w: int, s0: Walker, n: nat)
    requires IsGrid(g, h, w) && Free(g, h, w, s0)
    ensures Free(g, h, w, Walk(g, h, w, s0, n))
  {
    var p := (s: Walker) => Free(g, h, w, s);
    forall s | p(s)
      ensures p(StepOf(g, h, w)(s))
    {
      FreeStep(g, h, w, s);
    }
    IterateKeeps(StepOf(g, h, w), p, s0, n);
  }

  /** Every iteration of a free walk moves to an adjacent open cell. */
  lemma WalkMoves(g: Grid, h: int, w: int, s0: Walker, n: nat)
    requires IsGrid(g, h, w) && Free(g, h, w, s0)
    ensures IsOpen(g, h, w, Walk(g, h, w, s0, n).pos)
    ensures Walk(g, h, w, s0, n + 1) != Walk(g, h, w, s0, n)
    ensures Adjacent(Walk(g, h, w, s0, n).pos, Walk(g, h, w, s0, n + 1).pos)
  {
    WalkFree(g, h, w, s0, n);
    WalkNext(g, h, w, s0, n);
    FreeStep(g, h, w, Walk(g, h, w, s0, n));
  }

  datatype LeftHandError = StartOutOfBounds | EndOutOfBounds | Enclosed | StepLimitExceeded

  /** A normal return: the solution mask, the step count, and the cells
      entered, in order. */
  datatype Solved = Solved(solution: Grid, steps: nat, path: seq<(int, int)>)

  /** `left_hand_algo` with `visualize` off. Bounds are checked before
      anything else (`ValueError`), then the initial heading (`RuntimeError`
      when the start is enclosed, even if it is the end); the walk then runs
      until it stands on `end`, raising once it would take more than
      `maxSteps` iterations. */
  method LeftHandAlgo(maze: Grid, h: int, w: int, start: (int, int), end: (int, int), maxSteps: int := DEFAULT_MAX_STEPS)
    returns (r: Result<Solved, LeftHandError>)
    requires IsGrid(maze, h, w)
    ensures r == Err(StartOutOfBounds) <==> !InBounds(h, w, start.0, start.1)
    ensures r == Err(EndOutOfBounds) <==> InBounds(h, w, start.0, start.1) && !InBounds(h, w, end.0, end.1)
    ensures r == Err(Enclosed) <==>
              InBounds(h, w, start.0, start.1) && InBounds(h, w, end.0, end.1) &&
              forall d: Heading :: !IsOpen(maze, h, w, Neighbour(start, d))
    ensures r.Ok? ==> InitialHeading(maze, h, w, start).Some?
    ensures r.Ok? ==>
              var s0 := Walker(start, InitialHeading(maze, h, w, start).value);
              var res := r.value;
              && (res.steps == 0 || res.steps <= maxSteps)
              && |res.path| == res.steps
              && Walk(maze, h, w, s0, res.steps).pos == end
              && (forall i :: 0 <= i < res.steps ==> Walk(maze, h, w, s0, i).pos != end)
              && (forall i :: 0 <= i < |res.path| ==> res.path[i] == Walk(maze, h, w, s0, i + 1).pos)
              && (forall i :: 0 <= i < |res.path| ==> IsOpen(maze, h, w, res.path[i]))
              && Marks(res.solution, h, w, res.path)
    ensures r == Err(StepLimitExceeded) ==>
              InitialHeading(maze, h, w, start).Some? &&
              var s0 := Walker(start, InitialHeading(maze, h, w, start).value);
              forall i :: 0 <= i <= maxSteps ==> Walk(maze, h, w, s0, i).pos != end
  {
    if !InBounds(h, w, start.0, start.1) {
      return Err(StartOutOfBounds);
    }
    if !InBounds(h, w, end.0, end.1) {
      return Err(EndOutOfBounds);
    }
    var heading := InitialHeading(maze, h, w, start);
    if heading.None? {
      return Err(Enclosed);
    }
    var s0 := Walker(start, heading.value);
    var s := s0;
    var steps: nat := 0;
    var path: seq<(int, int)> := [];
    var solution := Filled(h, w, 0);
    MarksNone(h, w);
    while s.pos != end
      invariant steps == 0 || steps <= maxSteps
      invariant s == Walk(maze, h, w, s0, steps) && InBounds(h, w, s.pos.0, s.pos.1)
      invariant Avoids(PosAt(maze, h, w, s0), end, steps)
      invariant path == Trace(Entered(maze, h, w, s0), steps)
      invariant Marks(solution, h, w, path)
      decreases maxSteps - steps
    {
      AvoidsNext(maze, h, w, s0, end, steps);
      if steps + 1 > maxSteps {
        NeverReached(maze, h, w, s0, end, steps + 1);
        return Err(StepLimitExceeded);
      }
      Advance(maze, h, w, s0, steps);
      EnteredNext(maze, h, w, s0, steps);
      s := Step(maze, h, w, s);
      steps := steps + 1;
      MarksOneMore(solution, h, w, path, s.pos);
      solution := Set(solution, s.pos.0, s.pos.1, 1);
      path := path + [s.pos];
    }
    NeverReached(maze, h, w, s0, end, steps);
    BackOpen(maze, h, w, start, heading.value);
    PathEntries(maze, h, w, s0, steps);
    PathOpen(maze, h, w, s0, path);
    return Ok(Solved(solution, steps, path));
  }

  /** `sol` is an `h` x `w` mask of zeros and ones whose ones are exactly
      the cells of `path`. */
  ghost predicate Marks(sol: Grid, h: int, w: int, path: seq<(int, int)>) {
    IsGrid(sol, h, w) &&
    forall y, x {:trigger sol[y][x]} :: InBounds(h, w, y, x) ==>
      (sol[y][x] == 1 <==> (y, x) in path) && (sol[y][x] == 0 || sol[y][x] == 1)
  }

  /** The all-zero mask marks the empty path. */
  lemma MarksNone(h: nat, w: nat)
    ensures Marks(Filled(h, w, 0), h, w, [])
  {
  }

  /** Marking one more cell records it on the path. */
  lemma MarksOneMore(sol: Grid, h: int, w: int, path: seq<(int, int)>, p: (int, int))
    requires Marks(sol, h, w, path) && InBounds(h, w, p.0, p.1)
    ensures Marks(Set(sol, p.0, p.1, 1), h, w, path + [p])
  {
    var sol' := Set(sol, p.0, p.1, 1);
    forall y, x | InBounds(h, w, y, x)
      ensures (sol'[y][x] == 1 <==> (y, x) in path + [p]) && (sol'[y][x] == 0 || sol'[y][x] == 1)
    {
      assert (y, x) in path + [p] <==> (y, x) in path || (y, x) == p;
    }
  }

  /** Where the walker stands after each number of iterations. */
  function PosAt(g: Grid, h: int, w: int, s0: Walker): nat -> (int, int)
    requires IsGrid(g, h, w)
  {
    (i: nat) => Walk(g, h, w, s0, i).pos
  }

  /** The cell entered by each iteration, counting from 0. */
  function Entered(g: Grid, h: int, w: int, s0: Walker): nat -> (int, int)
    requires IsGrid(g, h, w)
  {
    (i: nat) => Walk(g, h, w, s0, i + 1).pos
  }

  /** One iteration of the loop: the walker steps and stays in the grid. */
  lemma Advance(g: Grid, h: int, w: int, s0: Walker, n: nat)
    requires IsGrid(g, h, w) && InBounds(h, w, s0.pos.0, s0.pos.1)
    ensures Walk(g, h, w, s0, n + 1) == Step(g, h, w, Walk(g, h, w, s0, n))
    ensures InBounds(h, w, Walk(g, h, w, s0, n + 1).pos.0, Walk(g, h, w, s0, n + 1).pos.1)
  {
    WalkNext(g, h, w, s0, n);
    WalkInBounds(g, h, w, s0, n + 1);
  }

  /** Leaving a cell other than `end` extends the record of cells left. */
  lemma AvoidsNext(g: Grid, h: int, w: int, s0: Walker, end: (int, int), n: nat)
    requires IsGrid(g, h, w)
    requires Walk(g, h, w, s0, n).pos != end && Avoids(PosAt(g, h, w, s0), end, n)
    ensures Avoids(PosAt(g, h, w, s0), end, n + 1)
  {
    assert PosAt(g, h, w, s0)(n) == Walk(g, h, w, s0, n).pos;
  }

  /** The cell an iteration enters is appended to the path. */
  lemma EnteredNext(g: Grid, h: int, w: int, s0: Walker, n: nat)
    requires IsGrid(g, h, w)
    ensures Trace(Entered(g, h, w, s0), n + 1) == Trace(Entered(g, h, w, s0), n) + [Walk(g, h, w, s0, n + 1).pos]
  {
    assert Entered(g, h, w, s0)(n) == Walk(g, h, w, s0, n + 1).pos;
  }

  /** The walker stood away from `end` before each of its first `n` iterations. */
  lemma NeverReached(g: Grid, h: int, w: int, s0: Walker, end: (int, int), n: nat)
    requires IsGrid(g, h, w) && Avoids(PosAt(g, h, w, s0), end, n)
    ensures forall i :: 0 <= i < n ==> Walk(g, h, w, s0, i).pos != end
  {
    AvoidsAll(PosAt(g, h, w, s0), end, n);
    forall i | 0 <= i < n
      ensures Walk(g, h, w, s0, i).pos != end
    {
      assert PosAt(g, h, w, s0)(i) == Walk(g, h, w, s0, i).pos;
    }
  }

  /** The path lists the cells entered, in order. */
  lemma PathEntries(g: Grid, h: int, w: int, s0: Walker, n: nat)
    requires IsGrid(g, h, w)
    ensures forall i :: 0 <= i < n ==> Trace(Entered(g, h, w, s0), n)[i] == Walk(g, h, w, s0, i + 1).pos
  {
    TraceAt(Entered(g, h, w, s0), n);
    forall i | 0 <= i < n
      ensures Trace(Entered(g, h, w, s0), n)[i] == Walk(g, h, w, s0, i + 1).pos
    {
      assert Entered(g, h, w, s0)(i) == Walk(g, h, w, s0, i + 1).pos;
    }
  }

  /** Every cell entered is open when the start has an open neighbour. */
  lemma PathOpen(g: Grid, h: int, w: int, s0: Walker, path: seq<(int, int)>)
    requires IsGrid(g, h, w) && HasOpenNeighbour(g, h, w, s0.pos)
    requires forall i :: 0 <= i < |path| ==> path[i] == Walk(g, h, w, s0, i + 1).pos
    ensures forall i :: 0 <= i < |path| ==> IsOpen(g, h, w, path[i])
  {
    forall i | 0 <= i < |path|
      ensures IsOpen(g, h, w, path[i])
    {
      WalkOpen(g, h, w, s0, i + 1);
    }
  }

  /** `f(0), ..., f(n - 1)`. */
  function Trace<T>(f: nat -> T, n: nat): (t: seq<T>)
    ensures |t| == n
  {
    if n == 0 then [] else Trace(f, n - 1) + [f(n - 1)]
  }

  /** The `i`-th entry of a trace is `f(i)`. */
  lemma {:induction false} TraceAt<T>(f: nat -> T, n: nat)
    ensures forall i :: 0 <= i < n ==> Trace(f, n)[i] == f(i)
  {
    if n > 0 {
      TraceAt(f, n - 1);
    }
  }

  /** None of `f(0), ..., f(n - 1)` is `x`, accumulated one index at a time. */
  ghost predicate Avoids<T>(f: nat -> T, x: T, n: nat) {
    n == 0 || (Avoids(f, x, n - 1) && f(n - 1) != x)
  }

  lemma {:induction false} AvoidsAll<T>(f: nat -> T, x: T, n: nat)
    requires Avoids(f, x, n)
    ensures forall i :: 0 <= i < n ==> f(i) != x
  {
    if n > 0 {
      AvoidsAll(f, x, n - 1);
    }
  }
}
