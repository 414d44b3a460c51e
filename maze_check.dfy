/** `valid_maze`: does the grid have a start cell and a goal corner? */
module MazeCheck {
  import opened Grid

  /** A maze is complete when some cell is a start and some cell a corner. */
  ghost predicate Complete(g: Grid)
  {
    Contains(g, Start) && Contains(g, Corner)
  }

  /** Some cell among the first `rows` rows of `a` holds `v`. */
  ghost predicate SeenInRows(a: array2<int>, rows: int, v: int)
    reads a
  {
    exists i, j :: 0 <= i < rows && 0 <= i < a.Length0 && 0 <= j < a.Length1 && a[i, j] == v
  }

  /** Some cell of row `i` of `a` before column `cols` holds `v`. */
  ghost predicate SeenInRow(a: array2<int>, i: int, cols: int, v: int)
    reads a
  {
    exists j :: 0 <= i < a.Length0 && 0 <= j < cols && 0 <= j < a.Length1 && a[i, j] == v
  }

  /** The array holds `v` somewhere exactly when its value contains `v`. */
  lemma SeenInAll(a: array2<int>, v: int)
    ensures SeenInRows(a, a.Length0, v) <==> Contains(Snapshot(a), v)
  {
    var g := Snapshot(a);
    if SeenInRows(a, a.Length0, v) {
      var i, j :| 0 <= i < a.Length0 && 0 <= j < a.Length1 && a[i, j] == v;
      assert InBounds(g, (i, j)) && At(g, (i, j)) == v;
    }
    if Contains(g, v) {
      var c :| InBounds(g, c) && At(g, c) == v;
      assert a[c.0, c.1] == v;
    }
  }

  /** `valid_maze(grid)`: scans every cell, raising a flag for a start (2)
      and, otherwise, for a corner (4); true when both flags are up. It
      reads the grid and changes nothing. */
  method ValidMaze(grid: array2<int>) returns (ok: bool)
    ensures ok <==> Complete(Snapshot(grid))
    ensures grid.Length0 == 0 || grid.Length1 == 0 ==> !ok
  {
    var yellow, red := false, false;
    for i := 0 to grid.Length0
      invariant yellow <==> SeenInRows(grid, i, Start)
      invariant red <==> SeenInRows(grid, i, Corner)
    {
      for j := 0 to grid.Length1
        invariant yellow <==> SeenInRows(grid, i, Start) || SeenInRow(grid, i, j, Start)
        invariant red <==> SeenInRows(grid, i, Corner) || SeenInRow(grid, i, j, Corner)
      {
        if grid[i, j] == Start {
          yellow := true;
        } else if grid[i, j] == Corner {
          red := true;
        }
      }
      assert SeenInRows(grid, i + 1, Start) <==> SeenInRows(grid, i, Start) || SeenInRow(grid, i, grid.Length1, Start);
      assert SeenInRows(grid, i + 1, Corner) <==> SeenInRows(grid, i, Corner) || SeenInRow(grid, i, grid.Length1, Corner);
    }
    SeenInAll(grid, Start);
    SeenInAll(grid, Corner);
    ok := yellow && red;
  }
}
