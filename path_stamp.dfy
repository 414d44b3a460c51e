/** `add_path`: stamping a list of coordinates into a grid in place. */
module PathStamp {
  import opened Grid

  /** What `add_path` leaves behind: the grid as it then stands and, when it
      raised, the coordinate its `ValueError` names. */
  datatype Stamping = Stamping(grid: Grid, raised: Option<Coord>)

  /** `add_path` one coordinate after the other: a wall stops it, leaving the
      grid as it stands; any other cell is overwritten with `OnPath`. */
  function Stamp(g: Grid, path: seq<Coord>): (r: Stamping)
    requires AllInBounds(g, path)
    ensures SameShape(r.grid, g)
    ensures r.raised.Some? ==> r.raised.value in path && At(g, r.raised.value) == Wall
    decreases |path|
  {
    if path == [] then Stamping(g, None)
    else if At(g, path[0]) == Wall then Stamping(g, Some(path[0]))
    else Stamp(Put(g, path[0], OnPath), path[1..])
  }

  /** The index of the first coordinate of `path` on a wall of `g`, or `|path|`. */
  function FirstWall(g: Grid, path: seq<Coord>): (k: nat)
    requires AllInBounds(g, path)
    ensures k <= |path|
    ensures forall i :: 0 <= i < k ==> At(g, path[i]) != Wall
    ensures k < |path| ==> At(g, path[k]) == Wall
  {
    if path == [] || At(g, path[0]) == Wall then 0 else 1 + FirstWall(g, path[1..])
  }

  /** Grids with the same walls along `path` stop at the same coordinate. */
  lemma FirstWallSameWalls(g: Grid, h: Grid, path: seq<Coord>)
    requires AllInBounds(g, path) && AllInBounds(h, path)
    requires forall c :: c in path ==> (At(g, c) == Wall <==> At(h, c) == Wall)
    ensures FirstWall(g, path) == FirstWall(h, path)
  {
  }

  /** The first wall is the one that every earlier coordinate avoids. */
  lemma FirstWallIs(g: Grid, path: seq<Coord>, k: nat)
    requires AllInBounds(g, path)
    requires k < |path| && At(g, path[k]) == Wall
    requires forall i :: 0 <= i < k ==> At(g, path[i]) != Wall
    ensures FirstWall(g, path) == k
  {
  }

  /** A non-empty prefix is its first element followed by a prefix of the rest. */
  lemma PrefixCons(s: seq<Coord>, k: nat)
    requires 1 <= k <= |s|
    ensures s[..k] == [s[0]] + s[1..][..k - 1]
  {
    assert s[1..][..k - 1] == s[1..k];
  }

  /** What `add_path` does, all at once: it raises exactly when some
      coordinate lies on a wall of the grid it was given, naming the first such
      coordinate; the coordinates before it now hold `OnPath`, every other cell
      is as it was. */
  lemma {:induction false} StampEffect(g: Grid, path: seq<Coord>)
    requires AllInBounds(g, path)
    ensures var k := FirstWall(g, path);
      Stamp(g, path).raised == (if k < |path| then Some(path[k]) else None)
    ensures var k := FirstWall(g, path);
      forall c :: InBounds(g, c) ==>
        At(Stamp(g, path).grid, c) == if c in path[..k] then OnPath else At(g, c)
    decreases |path|
  {
    if path == [] {
    } else if At(g, path[0]) == Wall {
      assert path[..0] == [];
    } else {
      var g' := Put(g, path[0], OnPath);
      StampEffect(g', path[1..]);
      FirstWallSameWalls(g, g', path[1..]);
      var k := FirstWall(g, path);
      var tail := path[1..][..k - 1];
      PrefixCons(path, k);
      forall c | InBounds(g, c)
        ensures At(Stamp(g, path).grid, c) == if c in path[..k] then OnPath else At(g, c)
      {
        assert InBounds(g', c);
        assert c in path[..k] <==> c == path[0] || c in tail;
      }
    }
  }

  /** Success: when no coordinate lies on a wall, `add_path` returns, every
      coordinate of the path holds `OnPath` and every other cell is unchanged. */
  lemma StampSucceeds(g: Grid, path: seq<Coord>)
    requires AllInBounds(g, path)
    requires forall c :: c in path ==> At(g, c) != Wall
    ensures Stamp(g, path).raised == None
    ensures forall c :: InBounds(g, c) ==>
      At(Stamp(g, path).grid, c) == if c in path then OnPath else At(g, c)
  {
    StampEffect(g, path);
    assert path[..|path|] == path;
  }

  /** Failure: when `path[k]` is the first coordinate on a wall, `add_path`
      raises naming it; the coordinates before it hold `OnPath`, nothing is
      rolled back, and every cell not among them, `path[k]` included, is
      unchanged. */
  lemma StampFails(g: Grid, path: seq<Coord>, k: nat)
    requires AllInBounds(g, path)
    requires k < |path| && At(g, path[k]) == Wall
    requires forall i :: 0 <= i < k ==> At(g, path[i]) != Wall
    ensures Stamp(g, path).raised == Some(path[k])
    ensures forall c :: InBounds(g, c) ==>
      At(Stamp(g, path).grid, c) == if c in path[..k] then OnPath else At(g, c)
    ensures At(Stamp(g, path).grid, path[k]) == Wall
  {
    StampEffect(g, path);
    FirstWallIs(g, path, k);
    assert path[k] !in path[..k];
  }

  /** `add_path` never changes a wall and never makes one. */
  lemma StampKeepsWalls(g: Grid, path: seq<Coord>)
    requires AllInBounds(g, path)
    ensures forall c :: InBounds(g, c) ==>
      (At(Stamp(g, path).grid, c) == Wall <==> At(g, c) == Wall)
  {
    StampEffect(g, path);
  }

  /** Stamping the same path a second time changes nothing, and ends the same
      way: both times it returns, or both times it raises at the same cell. */
  lemma StampIdempotent(g: Grid, path: seq<Coord>)
    requires AllInBounds(g, path)
    ensures AllInBounds(Stamp(g, path).grid, path)
    ensures Stamp(Stamp(g, path).grid, path) == Stamp(g, path)
  {
    var r := Stamp(g, path);
    StampEffect(g, path);
    StampKeepsWalls(g, path);
    StampEffect(r.grid, path);
    FirstWallSameWalls(g, r.grid, path);
    GridExt(Stamp(r.grid, path).grid, r.grid);
  }

  /** `add_path(grid, path)` on an array that holds `g`: writes `OnPath` into
      the array coordinate by coordinate and raises at the first wall; it
      returns the array it was given. */
  method AddPath(grid: array2<int>, ghost g: Grid, path: seq<Coord>) returns (r: Outcome<array2<int>>)
    requires Holds(grid, g)
    requires forall c :: c in path ==> InArray(grid, c)
    modifies grid
    ensures AllInBounds(g, path)
    ensures Holds(grid, Stamp(g, path).grid)
    ensures r == match Stamp(g, path).raised
                 case None => Returned(grid)
                 case Some(at) => Raised(at)
  {
    ghost var cur := g;
    HoldsBounds(grid, g, path);
    for t := 0 to |path|
      invariant Holds(grid, cur) && SameShape(cur, g)
      invariant AllInBounds(cur, path)
      invariant Stamp(cur, path[t..]) == Stamp(g, path)
    {
      assert path[t] in path;
      var (x, y) := path[t];
      assert path[t..][1..] == path[t + 1..];
      if grid[x, y] == Wall {
        return Raised((x, y));
      }
      SetCell(grid, (x, y), OnPath, cur);
      cur := Put(cur, (x, y), OnPath);
    }
    return Returned(grid);
  }
}
