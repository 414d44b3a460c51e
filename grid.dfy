/** The maze grid: cell codes, coordinates, grid values, and the bridge from
    a two-dimensional array updated in place to the value it holds. */
module Grid {

  /** Cell codes, as given by `color_map` in `show_maze`. */
  const Empty := 0   // white
  const Wall := 1    // black
  const Start := 2   // yellow: Pac-Man
  const OnPath := 3  // blue: a cell of the solution path
  const Corner := 4  // red: a goal corner

  /** A `(row, column)` pair, as the source's `(x, y)`. */
  type Coord = (int, int)

  datatype Option<T> = None | Some(value: T)

  /** What a call that may raise `ValueError("... ({x}, {y})")` ends with:
      it returns a value, or it raises naming the offending cell. */
  datatype Outcome<T> = Returned(value: T) | Raised(at: Coord)

  /** A grid as a value: a list of rows. */
  type Grid = seq<seq<int>>

  predicate InBounds(g: Grid, c: Coord)
  {
    0 <= c.0 < |g| && 0 <= c.1 < |g[c.0]|
  }

  predicate AllInBounds(g: Grid, cs: seq<Coord>)
  {
    forall c :: c in cs ==> InBounds(g, c)
  }

  function At(g: Grid, c: Coord): int
    requires InBounds(g, c)
  {
    g[c.0][c.1]
  }

  /** Same number of rows, and row by row the same length. */
  predicate SameShape(a: Grid, b: Grid)
  {
    |a| == |b| && forall i :: 0 <= i < |a| ==> |a[i]| == |b[i]|
  }

  /** All rows as long as the first one. */
  predicate Rectangular(g: Grid)
  {
    forall i :: 0 <= i < |g| ==> |g[i]| == |g[0]|
  }

  /** `g` with the cell at `c` overwritten by `v` (the source's `grid[x][y] = v`). */
  function Put(g: Grid, c: Coord, v: int): (r: Grid)
    requires InBounds(g, c)
    ensures SameShape(r, g)
    ensures forall d :: InBounds(r, d) <==> InBounds(g, d)
    ensures forall d :: InBounds(g, d) ==> At(r, d) == if d == c then v else At(g, d)
  {
    g[c.0 := g[c.0][c.1 := v]]
  }

  /** Some cell of `g` holds `v`. */
  ghost predicate Contains(g: Grid, v: int)
  {
    exists c :: InBounds(g, c) && At(g, c) == v
  }

  /** Two grids of the same shape that agree on every cell are equal. */
  lemma GridExt(a: Grid, b: Grid)
    requires SameShape(a, b)
    requires forall c :: InBounds(a, c) ==> At(a, c) == At(b, c)
    ensures a == b
  {
    forall i | 0 <= i < |a|
      ensures a[i] == b[i]
    {
      forall j | 0 <= j < |a[i]|
        ensures a[i][j] == b[i][j]
      {
        assert At(a, (i, j)) == At(b, (i, j));
      }
    }
  }

  /** `c` addresses a cell of the array `a`. */
  predicate InArray(a: array2<int>, c: Coord)
  {
    0 <= c.0 < a.Length0 && 0 <= c.1 < a.Length1
  }

  /** The array `a` currently holds the grid value `g`. */
  ghost predicate Holds(a: array2<int>, g: Grid)
    reads a
  {
    |g| == a.Length0 &&
    (forall i :: 0 <= i < |g| ==> |g[i]| == a.Length1) &&
    forall c :: InBounds(g, c) ==> At(g, c) == a[c.0, c.1]
  }

  /** The value the array `a` currently holds. */
  ghost function Snapshot(a: array2<int>): (g: Grid)
    reads a
    ensures Holds(a, g)
    ensures Rectangular(g)
  {
    seq(a.Length0, i reads a => seq(a.Length1, j reads a => if 0 <= i < a.Length0 && 0 <= j < a.Length1 then a[i, j] else 0))
  }

  /** `grid[x][y] = v` on an array that holds `g`: it then holds `g` with
      that one cell replaced. */
  method SetCell(a: array2<int>, c: Coord, v: int, ghost g: Grid)
    requires Holds(a, g) && InArray(a, c)
    modifies a
    ensures InBounds(g, c) && Holds(a, Put(g, c, v))
  {
    a[c.0, c.1] := v;
  }

  /** Bounds in the array and in the value it holds agree. */
  lemma HoldsBounds(a: array2<int>, g: Grid, cs: seq<Coord>)
    requires Holds(a, g)
    requires forall c :: c in cs ==> InArray(a, c)
    ensures AllInBounds(g, cs)
  {
  }
}
