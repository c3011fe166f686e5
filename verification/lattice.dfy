/** The carving lattice both generators work on. Coordinates here are
    `(x, y)` pairs, as in large_maze_generator.py and maze.py. A lattice
    point is a cell whose two coordinates are odd and strictly inside the
    border; the generators carve between lattice points two cells apart,
    opening the wall cell between them. */
module Lattice {

  /** The four carving directions, in the order both generators list them. */
  datatype Compass = North | South | West | East

  /** A direction's position in that order: N, S, W, E. */
  function Rank(d: Compass): nat {
    match d
    case North => 0
    case South => 1
    case West => 2
    case East => 3
  }

  function Dx(d: Compass): int {
    match d
    case West => -1
    case East => 1
    case _ => 0
  }

  function Dy(d: Compass): int {
    match d
    case North => -1
    case South => 1
    case _ => 0
  }

  /** Width and height the generators accept: odd and at least 3. */
  predicate ValidDims(w: int, h: int) {
    w % 2 == 1 && w >= 3 && h % 2 == 1 && h >= 3
  }

  /** An odd/odd cell strictly inside the border. */
  predicate IsLattice(w: int, h: int, p: (int, int)) {
    0 < p.0 < w - 1 && 0 < p.1 < h - 1 && p.0 % 2 == 1 && p.1 % 2 == 1
  }

  /** A cell strictly inside the border. */
  predicate Interior(w: int, h: int, p: (int, int)) {
    0 < p.0 < w - 1 && 0 < p.1 < h - 1
  }

  /** The cell two steps from `p` towards `d`: the next lattice point. */
  function Jump(p: (int, int), d: Compass): (int, int) {
    (p.0 + 2 * Dx(d), p.1 + 2 * Dy(d))
  }

  /** The cell one step from `p` towards `d`: the wall between `p` and `Jump(p, d)`. */
  function Between(p: (int, int), d: Compass): (int, int) {
    (p.0 + Dx(d), p.1 + Dy(d))
  }

  /** The corners the mazes start and end at are lattice points. */
  lemma CornersLattice(w: int, h: int)
    requires ValidDims(w, h)
    ensures IsLattice(w, h, (1, 1)) && IsLattice(w, h, (w - 2, h - 2))
  {
    assert (w - 2) % 2 == w % 2 && (h - 2) % 2 == h % 2;
  }

  /** Every lattice point of a `w` x `h` grid. */
  function Points(w: int, h: int): set<(int, int)> {
    set x, y | 0 <= x < w && 0 <= y < h && IsLattice(w, h, (x, y)) :: (x, y)
  }

  /** The wall between two lattice points is an interior cell. */
  lemma BetweenInterior(w: int, h: int, p: (int, int), d: Compass)
    requires IsLattice(w, h, p) && IsLattice(w, h, Jump(p, d))
    ensures Interior(w, h, Between(p, d))
    ensures Between(p, d) != p && Between(p, d) != Jump(p, d)
    ensures Between(p, d).0 % 2 == 0 || Between(p, d).1 % 2 == 0
  {
  }

  /** From a lattice point, a jump that stays strictly inside the border
      lands on a lattice point. */
  lemma JumpLattice(w: int, h: int, p: (int, int), d: Compass)
    requires IsLattice(w, h, p) && Interior(w, h, Jump(p, d))
    ensures IsLattice(w, h, Jump(p, d))
  {
    match d
    case North => assert Jump(p, d) == (p.0, p.1 - 2);
    case South => assert Jump(p, d) == (p.0, p.1 + 2);
    case West => assert Jump(p, d) == (p.0 - 2, p.1);
    case East => assert Jump(p, d) == (p.0 + 2, p.1);
  }

  /** `q` is in `s` if it is a lattice point. */
  predicate Covered(w: int, h: int, s: set<(int, int)>, q: (int, int)) {
    IsLattice(w, h, q) ==> q in s
  }

  /** Every lattice neighbour of `p` is in `s`: from `p` nothing is left to carve. */
  predicate Surrounded(w: int, h: int, s: set<(int, int)>, p: (int, int)) {
    && Covered(w, h, s, Jump(p, North))
    && Covered(w, h, s, Jump(p, South))
    && Covered(w, h, s, Jump(p, West))
    && Covered(w, h, s, Jump(p, East))
  }

  /** `s` is closed under the lattice-neighbour relation. */
  ghost predicate Closed(w: int, h: int, s: set<(int, int)>) {
    forall p {:trigger Surrounded(w, h, s, p)} :: p in s ==> Surrounded(w, h, s, p)
  }

  /** A closed set of lattice points that contains (1, 1) holds the whole
      lattice: the lattice graph is connected. */
  lemma ClosedCoversLattice(w: int, h: int, s: set<(int, int)>)
    requires ValidDims(w, h)
    requires (1, 1) in s && Closed(w, h, s)
    ensures Points(w, h) <= s
  {
    forall p | p in Points(w, h)
      ensures p in s
    {
      RowReached(w, h, s, p.0, p.1);
    }
  }

  /** Walking south from (1, 1) along column 1 stays in a closed set. */
  lemma {:induction false} ColumnReached(w: int, h: int, s: set<(int, int)>, y: int)
    requires ValidDims(w, h)
    requires (1, 1) in s && Closed(w, h, s)
    requires IsLattice(w, h, (1, y))
    ensures (1, y) in s
    decreases y
  {
    if y > 1 {
      ColumnReached(w, h, s, y - 2);
      assert Surrounded(w, h, s, (1, y - 2));
      assert Jump((1, y - 2), South) == (1, y);
    }
  }

  /** Walking east from column 1 along row `y` stays in a closed set. */
  lemma {:induction false} RowReached(w: int, h: int, s: set<(int, int)>, x: int, y: int)
    requires ValidDims(w, h)
    requires (1, 1) in s && Closed(w, h, s)
    requires IsLattice(w, h, (x, y))
    ensures (x, y) in s
    decreases x
  {
    if x == 1 {
      ColumnReached(w, h, s, y);
    } else {
      RowReached(w, h, s, x - 2, y);
      assert Surrounded(w, h, s, (x - 2, y));
      assert Jump((x - 2, y), East) == (x, y);
    }
  }

  /** The lattice points of one row. */
  function RowPoints(w: int, y: int): set<(int, int)> {
    set x | 0 < x < w - 1 && x % 2 == 1 :: (x, y)
  }

  lemma {:induction false} RowPointsCard(w: int, y: int)
    requires w >= 1 && w % 2 == 1
    ensures |RowPoints(w, y)| == w / 2
    decreases w
  {
    if w == 1 {
      assert RowPoints(w, y) == {};
    } else {
      RowPointsCard(w - 2, y);
      assert RowPoints(w, y) == RowPoints(w - 2, y) + {(w - 2, y)};
    }
  }

  /** The lattice of a `w` x `h` grid has `(h / 2) * (w / 2)` points: the
      number of passages a spanning tree over it visits. */
  lemma {:induction false} PointsCard(w: int, h: int)
    requires w >= 1 && w % 2 == 1 && h >= 1 && h % 2 == 1
    ensures |Points(w, h)| == (h / 2) * (w / 2)
    decreases h
  {
    if h == 1 {
      PointsFlat(w);
    } else {
      assert |Points(w, h)| == |Points(w, h - 2)| + |RowPoints(w, h - 2)| by {
        PointsSplit(w, h);
      }
      PointsCard(w, h - 2);
      RowPointsCard(w, h - 2);
      MulSucc((h - 2) / 2, w / 2);
    }
  }

  lemma MulSucc(m: int, k: int)
    ensures (m + 1) * k == m * k + k
  {
  }

  /** A grid of height 1 has no lattice point. */
  lemma PointsFlat(w: int)
    ensures Points(w, 1) == {}
  {
    forall p | p in Points(w, 1)
      ensures false
    {
    }
  }

  /** Growing the height by two adds one row of lattice points. */
  lemma PointsSplit(w: int, h: int)
    requires w >= 1 && w % 2 == 1 && h >= 3 && h % 2 == 1
    ensures Points(w, h) == Points(w, h - 2) + RowPoints(w, h - 2)
    ensures Points(w, h - 2) * RowPoints(w, h - 2) == {}
  {
    forall p | p in Points(w, h)
      ensures p in Points(w, h - 2) + RowPoints(w, h - 2)
    {
      if p.1 != h - 2 {
        assert p.1 < h - 2;
      }
    }
  }
}
