# Maze visualizer grid annotation, in Dafny

This project models the grid logic of `maze_visualizer.py`, a small Pac-Man
maze viewer. A maze is a grid of integer cell codes:

- 0 is empty;
- 1 is a wall;
- 2 is the start (Pac-Man);
- 3 is a cell on the solution path;
- 4 is a goal corner.

The model covers four parts of the file:

- `add_path` stamps a path into a grid in place. It raises
  `ValueError` at the first coordinate that lands on a wall.
- `valid_maze` reports whether a grid holds both a start and a corner.
- `show_maze`, up to the point where it renders. It deep-copies the
  grid, stamps the path onto the copy, paints the enabled corners
  red and then paints the start.
- `show_solution`. It calls `show_maze` once per segment of a solution and
  keeps a label list. That list switches a corner off once a segment has
  reached it (`corners.index` of the segment's last cell).

Grids that the source updates in place are `array2<int>` arrays. Each
imperative method is proved against a function over grid values
(`seq<seq<int>>`). The ghost predicate `Grid.Holds(a, g)` ties an array to the
value it holds. `AddPath`, `Annotated` and `Annotate`, which may raise
`ValueError`, return an `Outcome`: `Returned(value)` or `Raised(at)`, where
`at` is the cell named in the message. `show_solution` yields a `Session`, which holds the list of
`show_maze` calls that drew something and the reason the loop stopped, if it
stopped early.

Files:

- `grid.dfy` holds cell codes, coordinates, grid values, and the array/value bridge.
- `path_stamp.dfy` holds `add_path`.
- `maze_check.dfy` holds `valid_maze`.
- `maze_annotation.dfy` holds the annotation part of `show_maze`.
- `solution_labels.dfy` holds the loop of `show_solution`.

Two facts about copying and rollback follow from the code:

- `show_maze` always works on a `deepcopy` of the grid (maze_visualizer.py:61).
  `add_path` writes into whatever grid it is given (maze_visualizer.py:127).
  `MazeAnnotation.Annotate` has no `modifies` clause, so the caller's grid is
  never written.
- `add_path` does not roll back earlier stamps when it meets a wall
  (maze_visualizer.py:125-127). `PathStamp.StampFails` states which cells stay
  stamped. Inside `show_maze` those cells belong only to the copy, which is
  discarded when the call raises.

## Model

| member | source | states |
|---|---|---|
| Grid.Put | maze_visualizer.py:127 | the value-level `grid[x][y] = v`: same shape, same cells in bounds, the cell at `c` holds `v` and every other cell is unchanged |
| Grid.SetCell | maze_visualizer.py:127 | writing one cell of the array makes it hold the grid value with exactly that cell replaced |
| PathStamp.Stamp | maze_visualizer.py:122-129 | stamping a path, step by step, never changes the shape of the grid, and when it raises it names a coordinate of the path that is a wall of the grid it was given |
| PathStamp.FirstWall | maze_visualizer.py:123-126 | the index of the first path coordinate on a wall: no earlier coordinate is a wall, and the one at the index is (or it is the path length) |
| PathStamp.FirstWallSameWalls | maze_visualizer.py:125 | two grids with the same walls along the path stop at the same coordinate |
| PathStamp.FirstWallIs | maze_visualizer.py:123-126 | a wall coordinate that every earlier coordinate avoids is the first wall |
| PathStamp.StampEffect | maze_visualizer.py:122-129 | `add_path` raises exactly at the first wall coordinate, naming it; coordinates before it hold 3 and every other cell is unchanged |
| PathStamp.StampSucceeds | maze_visualizer.py:123-129 | with no wall on the path it returns, every path cell holds 3 and every other cell is unchanged |
| PathStamp.StampFails | maze_visualizer.py:125-126 | at the first wall `path[k]` it raises naming `path[k]`, the earlier coordinates stay stamped (no rollback), and the wall is untouched |
| PathStamp.StampKeepsWalls | maze_visualizer.py:125-127 | a cell is a wall after stamping exactly when it was a wall before |
| PathStamp.StampIdempotent | maze_visualizer.py:122-129 | stamping the stamped grid again changes nothing and ends the same way |
| PathStamp.AddPath | maze_visualizer.py:122-129 | the in-place loop leaves the array holding the stamped grid, and returns the same array or raises at the cell `Stamp` names |
| MazeCheck.SeenInAll | maze_visualizer.py:136-141 | scanning every row and column finds a value exactly when the grid contains it |
| MazeCheck.ValidMaze | maze_visualizer.py:133-143 | true if and only if some cell holds 2 and some cell holds 4; false on an empty grid |
| MazeAnnotation.Corners | maze_visualizer.py:80 | four corners whose rows are 1 or height-2 and whose columns are 1 or width-2 |
| MazeAnnotation.CornersOf | maze_visualizer.py:80 | on a grid at least two by two, all four corners lie inside the grid |
| MazeAnnotation.StampCorners | maze_visualizer.py:81-83 | the corner loop keeps the grid's shape |
| MazeAnnotation.StampCornersEffect | maze_visualizer.py:81-83 | the corner loop writes 4 into exactly the corners whose `show_corners` entry is truthy and leaves every other cell alone |
| MazeAnnotation.Annotated | maze_visualizer.py:61-87 | the grid `show_maze` hands to the renderer has the caller's grid's shape; when it raises instead, it names a path coordinate that is a wall of the caller's grid |
| MazeAnnotation.AnnotatedRaises | maze_visualizer.py:76-77 | `show_maze` raises exactly when `add_path` meets a wall of the caller's grid, naming the first such cell |
| MazeAnnotation.AnnotatedLayers | maze_visualizer.py:61-87 | when it does not raise, each cell is 2 if it is the start, else 4 if it is an enabled corner, else 3 if on the path, else the original value |
| MazeAnnotation.AnnotatedComplete | maze_visualizer.py:79-87 | with a start and an enabled corner at another cell, the drawn grid passes `valid_maze` |
| MazeAnnotation.DeepCopy | maze_visualizer.py:61 | the copy is a new array holding the same grid |
| MazeAnnotation.PaintCorners | maze_visualizer.py:81-83 | the in-place corner loop leaves the copy holding `StampCorners` of the grid it held |
| MazeAnnotation.Annotate | maze_visualizer.py:59-87 | returns a new array holding the annotated grid, or raises at the cell `Annotated` names; the caller's grid is not modified |
| SolutionLabels.IndexOf | maze_visualizer.py:115 | `list.index`: the first position holding the cell, or the list length when no position does |
| SolutionLabels.Solution | maze_visualizer.py:110-115 | the loop shows at most one display per segment, and exactly one per segment when it does not stop early |
| SolutionLabels.SolutionDisplays | maze_visualizer.py:113-114 | display `j` shows segment `j`, starting from that segment's first cell, with a four-entry label list |
| SolutionLabels.LabelsAtDisplay | maze_visualizer.py:112-115 | at display `j`, label `i` is 0 exactly when an earlier segment's last cell indexes corner `i`, else its initial value |
| SolutionLabels.SolutionLabelRules | maze_visualizer.py:112-115 | labels start at 1, are always 0 or 1, never go back from 0 to 1, and are 0 exactly when an earlier segment indexed that corner |
| SolutionLabels.DistinctCornerLabels | maze_visualizer.py:111-115 | when the four corners are distinct, label `i` is 0 at display `j` exactly when some earlier segment ended on corner `i` |
| SolutionLabels.CoincidingCornersKeepLabel | maze_visualizer.py:111-115 | in a maze three rows high, ending on (1, 1) clears only label 0, although corner 2 is the same cell |
| SolutionLabels.SolutionStops | maze_visualizer.py:113-115 | a stop after a segment that ends off every corner names its last cell; a raise comes before the next segment is shown and names that segment's first wall; every shown segment is wall-free; every shown segment other than one that stopped the loop off-corner ended on a corner |
| SolutionLabels.DrawSegment | maze_visualizer.py:114 | the `show_maze` call for a segment raises exactly at the segment's first wall |
| SolutionLabels.ShowSegment | maze_visualizer.py:113-115 | one turn of the loop, with the array, agrees with `Solution` from segment `t` on |
| SolutionLabels.ShowSolution | maze_visualizer.py:110-115 | the loop over an array maze yields exactly the session `Solution` gives, starting from labels `[1, 1, 1, 1]` |

## Left out

- Rendering (maze_visualizer.py:89-105) is left out: the colour map, `ListedColormap`, the matplotlib figure, `imshow` and `plt.show`. `CELL_SIZE` only sizes the figure. `show_solution` is modelled by what it passes to `show_maze`, recorded as one `Display` per drawing.
- The sample mazes and the usage example are data, not behaviour.
- The commented-out `valid_maze` check inside `show_maze` is not part of the model. `AnnotatedComplete` states when a drawn grid would pass it.
- The `start` parameter of `show_solution` is never read by the source, so `ShowSolution` does not take it.
- Annotate: requires a grid at least two by two, even when every `show_corners` entry is falsy. Python would accept smaller grids in that case, through negative indexing or by not touching the corners.
- AddPath: requires every coordinate to lie inside the array. Python's negative indices and `IndexError` are not modelled.
- Annotate: requires every path coordinate, and the start, to lie inside the array, for the same reason.
- ShowSolution: requires every segment to be non-empty and inside the maze. An empty segment makes Python raise `IndexError` at `segment[0]`, and that error is not modelled.
- Ragged grids are not modelled: an `array2` is rectangular, so rows of different lengths cannot occur.
- Coordinates are pairs of integers. Python's distinction between a list `[x, y]` and a tuple `(x, y)` is not modelled. In Python, `corners.index` never finds a list, so `show_solution` fed list coordinates raises at its first segment.
- Annotate: requires `show_corners` to have at least four entries. A shorter list makes Python raise `IndexError` at maze_visualizer.py:82, and that error is not modelled.
- The default arguments of `show_maze` (`start=None`, `path=None`, `show_corners=[1, 1, 1, 1]`, maze_visualizer.py:59) are not defaults in the model. Callers pass `None`, an empty path and the label list explicitly.
- Row aliasing is not modelled. A Python grid is a list of row lists, and several rows may be the same list object, as in `[[0] * w] * h`. `deepcopy` keeps that sharing, so one write at maze_visualizer.py:83, 87 or 127 reaches every aliased row. The cells of an `array2` are independent, so the model treats every row as distinct.
- Annotate: accepts a `show_corners` longer than four entries and reads only the first four, as the source does. Truthiness is modelled as `!= 0` on integers.
- Solution: defines when the loop raises through `FirstWall` rather than through `Annotated`. `AnnotatedRaises` proves that the two agree.
- Annotate: states that the caller's grid is unchanged through its missing `modifies` clause, not through an `ensures`.
- The text of `ValueError` messages is not modelled. Only the cell they name is kept.
