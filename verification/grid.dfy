/** The 2-D cell grid shared by every generator and solver: a row-major
    `h` x `w` array of integers indexed `g[y][x]`, where 0 is an open cell
    and 1 a wall (the dead-end solver adds 2 for a filled cell). */
module Grid {

  type Grid = seq<seq<int>>

  const EMPTY := 0
  const WALL := 1

  /** `g` has `h` rows of `w` cells each. */
  predicate IsGrid(g: Grid, h: int, w: int) {
    |g| == h && forall y :: 0 <= y < |g| ==> |g[y]| == w
  }

  predicate InBounds(h: int, w: int, y: int, x: int) {
    0 <= y < h && 0 <= x < w
  }

  /** Two cells are orthogonal neighbours. */
  predicate Adjacent(a: (int, int), b: (int, int)) {
    (a.0 == b.0 && (a.1 == b.1 + 1 || a.1 + 1 == b.1)) ||
    (a.1 == b.1 && (a.0 == b.0 + 1 || a.0 + 1 == b.0))
  }

  /** The four neighbours of a cell, by name. */
  lemma AdjacentCases(a: (int, int))
    ensures forall q :: Adjacent(a, q) <==>
              q == (a.0, a.1 + 1) || q == (a.0 + 1, a.1) || q == (a.0, a.1 - 1) || q == (a.0 - 1, a.1)
  {
  }

  /** An `h` x `w` grid holding `v` everywhere (`np.ones`, `np.zeros_like`). */
  function Filled(h: nat, w: nat, v: int): (g: Grid)
    ensures IsGrid(g, h, w)
    ensures forall y, x {:trigger g[y][x]} :: InBounds(h, w, y, x) ==> g[y][x] == v
  {
    seq(h, _ => seq(w, _ => v))
  }

  /** `g[y, x] = v`: one cell changes, every other cell keeps its value. */
  function Set(g: Grid, y: int, x: int, v: int): (r: Grid)
    requires 0 <= y < |g| && 0 <= x < |g[y]|
    ensures |r| == |g|
    ensures forall i :: 0 <= i < |g| ==> |r[i]| == |g[i]|
    ensures r[y][x] == v
    ensures forall i, j {:trigger r[i][j]} :: 0 <= i < |g| && 0 <= j < |g[i]| && (i, j) != (y, x) ==> r[i][j] == g[i][j]
  {
    g[y := g[y][x := v]]
  }

  /** The positions `(y, x)` of `g` whose value is `v`. */
  function CellsOf(g: Grid, v: int): set<(int, int)>
  {
    set y, x | 0 <= y < |g| && 0 <= x < |g[y]| && g[y][x] == v :: (y, x)
  }

  /** Writing `v` into a cell adds exactly that cell to the `v`-cells. */
  lemma CellsOfSetSame(g: Grid, y: int, x: int, v: int)
    requires 0 <= y < |g| && 0 <= x < |g[y]|
    ensures CellsOf(Set(g, y, x, v), v) == CellsOf(g, v) + {(y, x)}
  {
    var r := Set(g, y, x, v);
    forall p | p in CellsOf(r, v)
      ensures p in CellsOf(g, v) + {(y, x)}
    {
      if p != (y, x) {
        assert g[p.0][p.1] == r[p.0][p.1];
      }
    }
    forall p | p in CellsOf(g, v) + {(y, x)}
      ensures p in CellsOf(r, v)
    {
      if p != (y, x) {
        assert g[p.0][p.1] == r[p.0][p.1];
      }
    }
  }

  /** Writing any other value into a cell removes exactly that cell from the `v`-cells. */
  lemma CellsOfSetOther(g: Grid, y: int, x: int, c: int, v: int)
    requires 0 <= y < |g| && 0 <= x < |g[y]|
    requires c != v
    ensures CellsOf(Set(g, y, x, c), v) == CellsOf(g, v) - {(y, x)}
  {
    var r := Set(g, y, x, c);
    forall p | p in CellsOf(r, v)
      ensures p in CellsOf(g, v) - {(y, x)}
    {
      assert g[p.0][p.1] == r[p.0][p.1];
    }
    forall p | p in CellsOf(g, v) - {(y, x)}
      ensures p in CellsOf(r, v)
    {
      assert g[p.0][p.1] == r[p.0][p.1];
    }
  }

  /** The elements of a sequence, as a set. */
  function Elems<T>(s: seq<T>): set<T>
  {
    set x | x in s
  }

  /** No element occurs twice. */
  ghost predicate Distinct<T>(s: seq<T>) {
    forall i, j :: 0 <= i < j < |s| ==> s[i] != s[j]
  }

  /** A duplicate-free sequence has as many distinct elements as entries. */
  lemma {:induction false} DistinctCard<T>(s: seq<T>)
    requires Distinct(s)
    ensures |Elems(s)| == |s|
  {
    if |s| > 0 {
      var t := s[..|s| - 1];
      assert Distinct(t);
      DistinctCard(t);
      assert Elems(s) == Elems(t) + {s[|s| - 1]};
      assert s[|s| - 1] !in Elems(t);
    }
  }

  /** A subset is no larger than its superset. */
  lemma {:induction false} SubsetCard<T>(a: set<T>, b: set<T>)
    requires a <= b
    ensures |a| <= |b|
    decreases a
  {
    if a != {} {
      var x :| x in a;
      SubsetCard(a - {x}, b - {x});
    }
  }
}
