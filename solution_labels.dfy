/** `show_solution`: one `show_maze` call per segment of a solution, with a
    label list that switches off each corner once a segment has reached it. */
module SolutionLabels {
  import opened Grid
  import opened PathStamp
  import opened MazeAnnotation

  /** One call `show_maze(maze, segment[0], segment, label)`, with the label
      list as it stood at that call. */
  datatype Display = Display(start: Coord, segment: seq<Coord>, labels: seq<int>)

  /** Why `show_solution` stopped early: `show_maze` raised from `add_path`,
      or `corners.index` raised because a segment did not end on a corner. */
  datatype Stop = InvalidPath(at: Coord) | NotACorner(last: Coord)

  /** The calls `show_solution` made that drew something, and how it ended. */
  datatype Session = Session(shown: seq<Display>, stop: Option<Stop>)

  function Last(segment: seq<Coord>): Coord
    requires segment != []
  {
    segment[|segment| - 1]
  }

  /** `cs.index(c)`: the first position of `c` in `cs`, or `|cs|` where
      Python raises `ValueError`. */
  function IndexOf(cs: seq<Coord>, c: Coord): (k: nat)
    ensures k <= |cs|
    ensures k < |cs| ==> cs[k] == c
    ensures forall i :: 0 <= i < k ==> cs[i] != c
  {
    if cs == [] || cs[0] == c then 0 else 1 + IndexOf(cs[1..], c)
  }

  /** Every segment is non-empty and lies inside the maze. */
  predicate Segments(g: Grid, segments: seq<seq<Coord>>)
  {
    forall j :: 0 <= j < |segments| ==> segments[j] != [] && AllInBounds(g, segments[j])
  }

  /** `shown` followed by what `rest` shows, ending as `rest` ends. */
  function Then(shown: seq<Display>, rest: Session): Session
  {
    Session(shown + rest.shown, rest.stop)
  }

  lemma ThenAppend(shown: seq<Display>, more: seq<Display>, rest: Session)
    ensures Then(shown, Then(more, rest)) == Then(shown + more, rest)
  {
    assert shown + (more + rest.shown) == (shown + more) + rest.shown;
  }

  /** The loop of `show_solution` over `segments`, with label list `labels`:
      each segment is shown starting from its first cell, then the label of
      the corner it ends on is cleared. `show_maze` raises exactly when
      `add_path` meets a wall of the maze (`AnnotatedRaises`). */
  function Solution(g: Grid, segments: seq<seq<Coord>>, labels: seq<int>): (r: Session)
    requires Drawable(g) && Segments(g, segments) && |labels| == 4
    ensures |r.shown| <= |segments|
    ensures r.stop.None? ==> |r.shown| == |segments|
    decreases |segments|
  {
    if segments == [] then Session([], None)
    else
      var segment := segments[0];
      var w := FirstWall(g, segment);
      if w < |segment| then Session([], Some(InvalidPath(segment[w])))
      else
        var shown := Display(segment[0], segment, labels);
        var k := IndexOf(CornersOf(g), Last(segment));
        if k == 4 then Session([shown], Some(NotACorner(Last(segment))))
        else Then([shown], Solution(g, segments[1..], labels[k := 0]))
  }

  /** Display `j` shows segment `j`, from its first cell, with a label list
      of four entries. */
  lemma {:induction false} SolutionDisplays(g: Grid, segments: seq<seq<Coord>>, labels: seq<int>, j: nat)
    requires Drawable(g) && Segments(g, segments) && |labels| == 4
    requires j < |Solution(g, segments, labels).shown|
    ensures var d := Solution(g, segments, labels).shown[j];
      d.segment == segments[j] && d.start == segments[j][0] && |d.labels| == 4
    decreases j
  {
    if j > 0 {
      var k := IndexOf(CornersOf(g), Last(segments[0]));
      SolutionDisplays(g, segments[1..], labels[k := 0], j - 1);
    }
  }

  /** For each segment, the position `corners.index` gives for its last
      cell (4 when that cell is no corner). */
  function CornerIndices(g: Grid, segments: seq<seq<Coord>>): (ks: seq<nat>)
    requires Drawable(g) && Segments(g, segments)
    ensures |ks| == |segments|
    ensures forall m :: 0 <= m < |segments| ==> ks[m] == IndexOf(CornersOf(g), Last(segments[m]))
  {
    seq(|segments|, m requires 0 <= m < |segments| => IndexOf(CornersOf(g), Last(segments[m])))
  }

  /** The label list at display `j`: entry `i` is cleared exactly when one of
      the segments shown before it ended on corner `i` (as `list.index`
      finds it), and otherwise keeps its initial value. */
  lemma {:induction false} LabelsAtDisplay(g: Grid, segments: seq<seq<Coord>>, labels: seq<int>, j: nat, i: nat)
    requires Drawable(g) && Segments(g, segments) && |labels| == 4
    requires j < |Solution(g, segments, labels).shown| && i < 4
    ensures |Solution(g, segments, labels).shown[j].labels| == 4
    ensures Solution(g, segments, labels).shown[j].labels[i] ==
      if i in CornerIndices(g, segments)[..j] then 0 else labels[i]
    decreases j
  {
    SolutionDisplays(g, segments, labels, j);
    if j > 0 {
      var ks := CornerIndices(g, segments);
      var rest := segments[1..];
      assert FirstWall(g, segments[0]) == |segments[0]| && ks[0] < 4;
      var r' := Solution(g, rest, labels[ks[0] := 0]);
      assert Solution(g, segments, labels).shown[j] == r'.shown[j - 1];
      LabelsAtDisplay(g, rest, labels[ks[0] := 0], j - 1, i);
      assert ks[..j] == [ks[0]] + CornerIndices(g, rest)[..j - 1];
    }
  }

  /** The label rules of `show_solution`: every entry starts at 1 and is 0 or
      1 at each display; an entry only ever goes from 1 to 0; and entry `i`
      is 0 at display `j` exactly when an earlier segment ended on corner `i`. */
  lemma SolutionLabelRules(g: Grid, segments: seq<seq<Coord>>, j: nat, i: nat)
    requires Drawable(g) && Segments(g, segments)
    requires j < |Solution(g, segments, [1, 1, 1, 1]).shown| && i < 4
    ensures |Solution(g, segments, [1, 1, 1, 1]).shown[j].labels| == 4
    ensures var shown := Solution(g, segments, [1, 1, 1, 1]).shown;
      (j + 1 < |shown| ==> |shown[j + 1].labels| == 4) &&
      (j == 0 ==> shown[j].labels[i] == 1) &&
      (shown[j].labels[i] == 0 || shown[j].labels[i] == 1) &&
      (j + 1 < |shown| ==> shown[j + 1].labels[i] <= shown[j].labels[i]) &&
      (shown[j].labels[i] == 0 <==> i in CornerIndices(g, segments)[..j])
  {
    var shown := Solution(g, segments, [1, 1, 1, 1]).shown;
    LabelsAtDisplay(g, segments, [1, 1, 1, 1], j, i);
    if j + 1 < |shown| {
      LabelsAtDisplay(g, segments, [1, 1, 1, 1], j + 1, i);
    }
  }

  /** When the four corners are distinct cells (neither side of the maze is
      three cells long), entry `i` is 0 at display `j` exactly when corner `i`
      is the last cell of one of the segments shown before. */
  lemma DistinctCornerLabels(g: Grid, segments: seq<seq<Coord>>, j: nat, i: nat)
    requires Drawable(g) && Segments(g, segments) && |g| != 3 && |g[0]| != 3
    requires j < |Solution(g, segments, [1, 1, 1, 1]).shown| && i < 4
    ensures |Solution(g, segments, [1, 1, 1, 1]).shown[j].labels| == 4
    ensures Solution(g, segments, [1, 1, 1, 1]).shown[j].labels[i] == 0 <==>
      exists m :: 0 <= m < j && CornersOf(g)[i] == Last(segments[m])
  {
    var cs := CornersOf(g);
    SolutionLabelRules(g, segments, j, i);
    forall m | 0 <= m < j
      ensures IndexOf(cs, Last(segments[m])) == i <==> cs[i] == Last(segments[m])
    {
      var k := IndexOf(cs, Last(segments[m]));
      if cs[i] == Last(segments[m]) {
        assert k <= i && cs[k] == cs[i];
      }
    }
  }

  /** With a side three cells long two corners are the same cell, and
      `list.index` only ever clears the first of their two labels. */
  lemma CoincidingCornersKeepLabel(g: Grid, segments: seq<seq<Coord>>)
    requires Drawable(g) && Segments(g, segments) && |g| == 3
    requires 2 <= |Solution(g, segments, [1, 1, 1, 1]).shown|
    requires Last(segments[0]) == (1, 1)
    ensures CornersOf(g)[2] == Last(segments[0])
    ensures Solution(g, segments, [1, 1, 1, 1]).shown[1].labels == [0, 1, 1, 1]
  {
    var cs := CornersOf(g);
    assert IndexOf(cs, (1, 1)) == 0;
    LabelsAtDisplay(g, segments, [1, 1, 1, 1], 1, 0);
    LabelsAtDisplay(g, segments, [1, 1, 1, 1], 1, 1);
    LabelsAtDisplay(g, segments, [1, 1, 1, 1], 1, 2);
    LabelsAtDisplay(g, segments, [1, 1, 1, 1], 1, 3);
  }

  /** How `show_solution` ends: it stops at `NotACorner` right after showing
      a segment whose last cell is no corner; it stops at `InvalidPath` before
      showing the next segment, naming the first wall cell of that segment;
      every segment it showed is wall-free, so it stops at the first segment
      that meets a wall; and every segment it showed, unless it stopped at
      that very segment with `NotACorner`, ended on a corner. */
  lemma {:induction false} SolutionStops(g: Grid, segments: seq<seq<Coord>>, labels: seq<int>)
    requires Drawable(g) && Segments(g, segments) && |labels| == 4
    ensures var r := Solution(g, segments, labels);
      (forall x :: r.stop == Some(NotACorner(x)) ==>
         |r.shown| > 0 && x == Last(segments[|r.shown| - 1]) && x !in CornersOf(g)) &&
      (forall at :: r.stop == Some(InvalidPath(at)) ==>
         |r.shown| < |segments| && at in segments[|r.shown|] && InBounds(g, at) && At(g, at) == Wall &&
         FirstWall(g, segments[|r.shown|]) < |segments[|r.shown|]| &&
         at == segments[|r.shown|][FirstWall(g, segments[|r.shown|])]) &&
      (forall j :: 0 <= j < |r.shown| && (j + 1 < |r.shown| || !(r.stop.Some? && r.stop.value.NotACorner?)) ==>
         Last(segments[j]) in CornersOf(g)) &&
      (forall j :: 0 <= j < |r.shown| ==> FirstWall(g, segments[j]) == |segments[j]|)
    decreases |segments|
  {
    if segments != [] {
      var segment := segments[0];
      var k := IndexOf(CornersOf(g), Last(segment));
      if FirstWall(g, segment) == |segment| && k < 4 {
        var rest := segments[1..];
        SolutionStops(g, rest, labels[k := 0]);
        assert Solution(g, segments, labels) ==
          Then([Display(segment[0], segment, labels)], Solution(g, rest, labels[k := 0]));
        assert forall m :: 0 < m < |segments| ==> segments[m] == rest[m - 1];
      }
    }
  }

  /** One turn of the loop of `show_solution`, at segment `t`. */
  lemma SolutionStep(g: Grid, segments: seq<seq<Coord>>, t: nat, labels: seq<int>)
    requires Drawable(g) && Segments(g, segments) && t < |segments| && |labels| == 4
    ensures Segments(g, segments[t..]) && Segments(g, segments[t + 1..])
    ensures segments[t] != [] && AllInBounds(g, segments[t])
    ensures var segment := segments[t];
      var w := FirstWall(g, segment);
      var k := IndexOf(CornersOf(g), Last(segment));
      var shown := Display(segment[0], segment, labels);
      Solution(g, segments[t..], labels) ==
        if w < |segment| then Session([], Some(InvalidPath(segment[w])))
        else if k == 4 then Session([shown], Some(NotACorner(Last(segment))))
        else Then([shown], Solution(g, segments[t + 1..], labels[k := 0]))
  {
    assert segments[t..][0] == segments[t];
    assert segments[t..][1..] == segments[t + 1..];
  }

  /** The call `show_maze(maze, segment[0], segment, label)` inside the loop
      of `show_solution`: it raises exactly at the first wall of the segment. */
  method DrawSegment(maze: array2<int>, ghost g: Grid, segment: seq<Coord>, labels: seq<int>)
    returns (raised: Option<Coord>)
    requires Holds(maze, g)
    requires maze.Length0 >= 2 && maze.Length1 >= 2
    requires segment != [] && forall c :: c in segment ==> InArray(maze, c)
    requires |labels| >= 4
    ensures AllInBounds(g, segment)
    ensures raised == if FirstWall(g, segment) < |segment| then Some(segment[FirstWall(g, segment)]) else None
  {
    var drawn := Annotate(maze, g, Some(segment[0]), segment, labels);
    AnnotatedRaises(g, Some(segment[0]), segment, labels);
    raised := if drawn.Raised? then Some(drawn.at) else None;
  }

  /** One turn of the loop of `show_solution`: draw segment `t`, then look up
      the corner it ends on and switch that corner's label off. `step` is what
      the turn showed and, if the loop stops here, why. */
  method ShowSegment(maze: array2<int>, ghost g: Grid, corners: seq<Coord>, segments: seq<seq<Coord>>, t: nat, labels: seq<int>)
    returns (step: Session, next: seq<int>)
    requires Holds(maze, g) && maze.Length0 >= 2 && maze.Length1 >= 2
    requires corners == CornersOf(g)
    requires Segments(g, segments) && t < |segments| && |labels| == 4
    ensures |next| == 4
    ensures Segments(g, segments[t..]) && Segments(g, segments[t + 1..])
    ensures step.stop.Some? ==> Solution(g, segments[t..], labels) == step
    ensures step.stop.None? ==>
      Solution(g, segments[t..], labels) == Then(step.shown, Solution(g, segments[t + 1..], next))
  {
    var segment := segments[t];
    SolutionStep(g, segments, t, labels);
    var raised := DrawSegment(maze, g, segment, labels);
    next := labels;
    if raised.Some? {
      return Session([], Some(InvalidPath(raised.value))), next;
    }
    var display := Display(segment[0], segment, labels);
    var k := IndexOf(corners, segment[|segment| - 1]);
    if k == |corners| {
      return Session([display], Some(NotACorner(segment[|segment| - 1]))), next;
    }
    next := labels[k := 0];
    step := Session([display], None);
  }

  /** `show_solution(maze, start, solution)`: the loop over the segments of
      `solution`, starting from the label list `[1, 1, 1, 1]`. It only reads
      the maze. */
  method ShowSolution(maze: array2<int>, ghost g: Grid, segments: seq<seq<Coord>>) returns (run: Session)
    requires Holds(maze, g)
    requires maze.Length0 >= 2 && maze.Length1 >= 2
    requires forall j :: 0 <= j < |segments| ==>
      segments[j] != [] && forall c :: c in segments[j] ==> InArray(maze, c)
    ensures Drawable(g) && Segments(g, segments)
    ensures run == Solution(g, segments, [1, 1, 1, 1])
  {
    forall j | 0 <= j < |segments|
      ensures segments[j] != [] && AllInBounds(g, segments[j])
    {
      HoldsBounds(maze, g, segments[j]);
    }
    var corners := Corners(maze.Length0, maze.Length1);
    assert corners == CornersOf(g);
    var labels := [1, 1, 1, 1];
    var shown: seq<Display> := [];
    for t := 0 to |segments|
      invariant |labels| == 4
      invariant Segments(g, segments[t..])
      invariant Solution(g, segments, [1, 1, 1, 1]) == Then(shown, Solution(g, segments[t..], labels))
    {
      var step, next := ShowSegment(maze, g, corners, segments, t, labels);
      if step.stop.Some? {
        return Then(shown, step);
      }
      ThenAppend(shown, step.shown, Solution(g, segments[t + 1..], next));
      shown := shown + step.shown;
      labels := next;
    }
    return Session(shown, None);
  }
}
