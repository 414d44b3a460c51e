/** The grid annotation that `show_maze` performs before it draws: on a deep
    copy of the caller's grid, the path, then the enabled corners, then the
    start cell. */
module MazeAnnotation {
  import opened Grid
  import opened PathStamp
  import opened MazeCheck

  /** The corners of an `h` by `w` grid, in the order the source
      lists them: top left, top right, bottom left, bottom right. */
  function Corners(h: int, w: int): (cs: seq<Coord>)
    ensures |cs| == 4
    ensures forall i :: 0 <= i < 4 ==> cs[i].0 in {1, h - 2} && cs[i].1 in {1, w - 2}
  {
    [(1, 1), (1, w - 2), (h - 2, 1), (h - 2, w - 2)]
  }

  /** A grid `show_maze` can annotate: rectangular, at least two by two, so
      that every corner lies inside it. */
  predicate Drawable(g: Grid)
  {
    Rectangular(g) && |g| >= 2 && |g[0]| >= 2
  }

  /** The corners of `g`, computed from `len(grid)` and `len(grid[0])`. */
  function CornersOf(g: Grid): (cs: seq<Coord>)
    requires Drawable(g)
    ensures |cs| == 4 && AllInBounds(g, cs)
  {
    Corners(|g|, |g[0]|)
  }

  /** `c` is corner `i` of `g` for some `i` whose `show_corners[i]` is truthy. */
  ghost predicate EnabledCorner(g: Grid, show: seq<int>, c: Coord)
    requires Drawable(g) && |show| >= 4
  {
    exists i :: 0 <= i < 4 && show[i] != 0 && CornersOf(g)[i] == c
  }

  /** The corner loop of `show_maze`, from index `i` on. */
  function StampCorners(g: Grid, cs: seq<Coord>, show: seq<int>, i: nat): (r: Grid)
    requires |cs| == 4 && |show| >= 4 && i <= 4 && AllInBounds(g, cs)
    ensures SameShape(r, g)
    decreases 4 - i
  {
    if i == 4 then g
    else StampCorners(if show[i] != 0 then Put(g, cs[i], Corner) else g, cs, show, i + 1)
  }

  /** The corner loop writes `Corner` into exactly the enabled corners from
      index `i` on and leaves every other cell alone. */
  lemma {:induction false} StampCornersEffect(g: Grid, cs: seq<Coord>, show: seq<int>, i: nat)
    requires |cs| == 4 && |show| >= 4 && i <= 4 && AllInBounds(g, cs)
    ensures forall c :: InBounds(g, c) ==>
      At(StampCorners(g, cs, show, i), c) ==
        if exists k :: i <= k < 4 && show[k] != 0 && cs[k] == c then Corner else At(g, c)
    decreases 4 - i
  {
    if i < 4 {
      var g' := if show[i] != 0 then Put(g, cs[i], Corner) else g;
      StampCornersEffect(g', cs, show, i + 1);
    }
  }

  /** The grid `show_maze` hands to the renderer, or the error it raises:
      `add_path` on the copy, then the enabled corners, then the start. */
  function Annotated(g: Grid, start: Option<Coord>, path: seq<Coord>, show: seq<int>): (r: Outcome<Grid>)
    requires Drawable(g) && |show| >= 4 && AllInBounds(g, path)
    requires start.Some? ==> InBounds(g, start.value)
    ensures r.Raised? ==> r.at in path && At(g, r.at) == Wall
    ensures r.Returned? ==> SameShape(r.value, g)
  {
    var stamped := Stamp(g, path);
    match stamped.raised
    case Some(at) => Raised(at)
    case None =>
      var cornered := StampCorners(stamped.grid, CornersOf(g), show, 0);
      Returned(if start.Some? then Put(cornered, start.value, Start) else cornered)
  }

  /** The annotation raises exactly when `add_path` would on the caller's
      grid, naming the same cell: the path is checked against the
      unannotated copy, before any corner or start is stamped. */
  lemma AnnotatedRaises(g: Grid, start: Option<Coord>, path: seq<Coord>, show: seq<int>)
    requires Drawable(g) && |show| >= 4 && AllInBounds(g, path)
    requires start.Some? ==> InBounds(g, start.value)
    ensures Annotated(g, start, path, show).Raised? <==> FirstWall(g, path) < |path|
    ensures FirstWall(g, path) < |path| ==>
      Annotated(g, start, path, show) == Raised(path[FirstWall(g, path)])
  {
    StampEffect(g, path);
  }

  /** The layering of the annotation, when it does not raise: every cell of
      the result is `Start` if it is the start; else `Corner` if it is an
      enabled corner; else `OnPath` if it is on the path; else as in the
      caller's grid. So the start wins over a corner or the path, a corner
      wins over the path, and only enabled corners turn red. */
  lemma AnnotatedLayers(g: Grid, start: Option<Coord>, path: seq<Coord>, show: seq<int>)
    requires Drawable(g) && |show| >= 4 && AllInBounds(g, path)
    requires start.Some? ==> InBounds(g, start.value)
    requires FirstWall(g, path) == |path|
    ensures Annotated(g, start, path, show).Returned?
    ensures var r := Annotated(g, start, path, show).value;
      SameShape(r, g) &&
      forall c :: InBounds(g, c) ==>
        At(r, c) == if start == Some(c) then Start
                    else if EnabledCorner(g, show, c) then Corner
                    else if c in path then OnPath
                    else At(g, c)
  {
    StampEffect(g, path);
    StampSucceeds(g, path);
    StampCornersEffect(Stamp(g, path).grid, CornersOf(g), show, 0);
  }

  /** Although `show_maze` does not check it, what it draws with a start and
      an enabled corner elsewhere passes `valid_maze`. */
  lemma AnnotatedComplete(g: Grid, start: Coord, path: seq<Coord>, show: seq<int>, i: nat)
    requires Drawable(g) && |show| >= 4 && AllInBounds(g, path) && InBounds(g, start)
    requires i < 4 && show[i] != 0 && CornersOf(g)[i] != start
    requires FirstWall(g, path) == |path|
    ensures Annotated(g, Some(start), path, show).Returned?
    ensures Complete(Annotated(g, Some(start), path, show).value)
  {
    AnnotatedLayers(g, Some(start), path, show);
    var r := Annotated(g, Some(start), path, show).value;
    var c := CornersOf(g)[i];
    assert EnabledCorner(g, show, c);
    assert At(r, start) == Start && At(r, c) == Corner;
  }

  /** `deepcopy(grid)`: a new grid holding the same cells. */
  method DeepCopy(grid: array2<int>, ghost g: Grid) returns (copy: array2<int>)
    requires Holds(grid, g)
    ensures fresh(copy)
    ensures Holds(copy, g)
  {
    copy := new int[grid.Length0, grid.Length1]((i, j) reads grid =>
      if 0 <= i < grid.Length0 && 0 <= j < grid.Length1 then grid[i, j] else 0);
  }

  /** The corner loop of `show_maze`: `Corner` into every corner `i` whose
      `show_corners[i]` is truthy. */
  method PaintCorners(copy: array2<int>, corners: seq<Coord>, showCorners: seq<int>, ghost g: Grid)
    requires |corners| == 4 && |showCorners| >= 4
    requires Holds(copy, g) && AllInBounds(g, corners)
    modifies copy
    ensures Holds(copy, StampCorners(g, corners, showCorners, 0))
  {
    ghost var cur := g;
    for i := 0 to 4
      invariant Holds(copy, cur)
      invariant AllInBounds(cur, corners)
      invariant StampCorners(cur, corners, showCorners, i) == StampCorners(g, corners, showCorners, 0)
    {
      if showCorners[i] != 0 {
        SetCell(copy, corners[i], Corner, cur);
        cur := Put(cur, corners[i], Corner);
      }
    }
  }

  /** `show_maze(grid, start, path, show_corners)` up to the rendering, on
      an array that holds `g`. It works on a deep copy: it has no `modifies`
      clause, so the caller's grid is never written, even when `add_path`
      raises. */
  method Annotate(grid: array2<int>, ghost g: Grid, start: Option<Coord>, path: seq<Coord>, showCorners: seq<int>)
    returns (r: Outcome<array2<int>>)
    requires Holds(grid, g)
    requires grid.Length0 >= 2 && grid.Length1 >= 2
    requires |showCorners| >= 4
    requires forall c :: c in path ==> InArray(grid, c)
    requires start.Some? ==> InArray(grid, start.value)
    ensures Drawable(g) && AllInBounds(g, path)
    ensures start.Some? ==> InBounds(g, start.value)
    ensures match r
      case Returned(copy) =>
        fresh(copy) && Annotated(g, start, path, showCorners).Returned? &&
        Holds(copy, Annotated(g, start, path, showCorners).value)
      case Raised(at) =>
        Annotated(g, start, path, showCorners) == Raised(at)
  {
    HoldsBounds(grid, g, path);
    ghost var stamped := Stamp(g, path);
    var copy := DeepCopy(grid, g);
    ghost var cur := g;
    if path != [] {
      var res := AddPath(copy, g, path);
      if res.Raised? {
        return Raised(res.at);
      }
      copy := res.value;
      cur := stamped.grid;
    }
    assert stamped.raised == None && cur == stamped.grid;
    var corners := Corners(grid.Length0, grid.Length1);
    assert corners == CornersOf(g);
    ghost var cornered := StampCorners(cur, corners, showCorners, 0);
    PaintCorners(copy, corners, showCorners, cur);
    cur := cornered;
    if start.Some? {
      SetCell(copy, start.value, Start, cur);
      cur := Put(cur, start.value, Start);
    }
    assert Annotated(g, start, path, showCorners) == Returned(cur);
    return Returned(copy);
  }
}
