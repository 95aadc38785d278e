/** The pixel-level helpers of the colour-to-depth search: clamping a point to
    the image (`AdjustPointToBoundary`), the bounding-box test
    (`IsPixelInLine`), the single-axis step (`NextPointInLine`), and the
    search loop's walk from the start pixel, bounded by fuel because the source
    loop need not terminate. */
module LineWalk {
  import opened Projection

  function Abs(v: real): real
  {
    if v < 0.0 then -v else v
  }

  function Min(a: real, b: real): real
  {
    if a <= b then a else b
  }

  function Max(a: real, b: real): real
  {
    if a <= b then b else a
  }

  /** `v` lies between `a` and `b`, in either order. */
  predicate Between(a: real, v: real, b: real)
  {
    Min(a, b) <= v <= Max(a, b)
  }

  /** `AdjustPointToBoundary` (2D): clamps each coordinate into `[0, width]`
      and `[0, height]`. Both upper bounds are inclusive. */
  function AdjustPointToBoundary(p: Vector2D, width: int, height: int): (r: Vector2D)
    ensures 0 <= width ==> 0.0 <= r.x <= width as real
    ensures 0 <= height ==> 0.0 <= r.y <= height as real
    ensures 0.0 <= p.x <= width as real ==> r.x == p.x
    ensures 0.0 <= p.y <= height as real ==> r.y == p.y
    ensures 0 <= width && p.x < 0.0 ==> r.x == 0.0
    ensures 0 <= height && p.y < 0.0 ==> r.y == 0.0
    ensures p.x > width as real ==> r.x == width as real
    ensures p.y > height as real ==> r.y == height as real
  {
    var x := if p.x < 0.0 then 0.0 else p.x;
    var x := if x > width as real then width as real else x;
    var y := if p.y < 0.0 then 0.0 else p.y;
    var y := if y > height as real then height as real else y;
    Vector2D(x, y)
  }

  /** Clamping twice is clamping once, whatever the bounds. */
  lemma {:induction false} AdjustPointToBoundaryIsIdempotent(p: Vector2D, width: int, height: int)
    ensures AdjustPointToBoundary(AdjustPointToBoundary(p, width, height), width, height)
         == AdjustPointToBoundary(p, width, height)
  {
  }

  /** `AdjustPointToBoundary` (3D): the same clamping with a third bound on Z. */
  function AdjustPointToBoundary3D(p: Vector3D, width: int, height: int, depth: int): (r: Vector3D)
    ensures 0 <= width ==> 0.0 <= r.x <= width as real
    ensures 0 <= height ==> 0.0 <= r.y <= height as real
    ensures 0 <= depth ==> 0.0 <= r.z <= depth as real
    ensures 0.0 <= p.x <= width as real && 0.0 <= p.y <= height as real && 0.0 <= p.z <= depth as real ==> r == p
    ensures Vector2D(r.x, r.y) == AdjustPointToBoundary(Vector2D(p.x, p.y), width, height)
  {
    var xy := AdjustPointToBoundary(Vector2D(p.x, p.y), width, height);
    var z := if p.z < 0.0 then 0.0 else p.z;
    var z := if z > depth as real then depth as real else z;
    Vector3D(xy.x, xy.y, z)
  }

  /** `IsPixelInLine`: the point lies in the bounding box of the segment. */
  function IsPixelInLine(current: Vector2D, start: Vector2D, end: Vector2D): (r: bool)
    ensures r <==> Between(start.x, current.x, end.x) && Between(start.y, current.y, end.y)
  {
    ((end.x >= start.x && end.x >= current.x && current.x >= start.x)
      || (end.x <= start.x && end.x <= current.x && current.x <= start.x))
    && ((end.y >= start.y && end.y >= current.y && current.y >= start.y)
      || (end.y <= start.y && end.y <= current.y && current.y <= start.y))
  }

  /** Both end points are in the line, and the test does not depend on which
      end is called the start. */
  lemma EndPointsAreInLine(current: Vector2D, start: Vector2D, end: Vector2D)
    ensures IsPixelInLine(start, start, end) && IsPixelInLine(end, start, end)
    ensures IsPixelInLine(current, start, end) == IsPixelInLine(current, end, start)
  {
  }

  /** `p` lies on the straight line through `start` and `end`. */
  predicate OnLine(p: Vector2D, start: Vector2D, end: Vector2D)
  {
    (p.y - end.y) * (end.x - start.x) == (end.y - start.y) * (p.x - end.x)
  }

  /** `NextPointInLine` as written. With `start.X == end.X` it returns `current`
      unchanged. Otherwise it steps one unit along the axis with the larger
      remaining distance to `end`; an X step recomputes Y on the line, a Y step
      recomputes X as `end.X - (end.Y + current.Y) / slope`. When the slope is 0
      that division yields an infinity in floating point; the model keeps X
      instead, which the walk cannot tell apart (see
      `FlatYStepLeavesTheLine`). */
  function NextPointInLine(current: Vector2D, start: Vector2D, end: Vector2D): (r: Vector2D)
    ensures start.x == end.x ==> r == current
    ensures start.x != end.x ==> Abs(r.x - current.x) == 1.0 || Abs(r.y - current.y) == 1.0
    ensures start.x != end.x && Abs(end.x - current.x) > Abs(end.y - current.y) ==> r == StepInX(current, start, end)
    ensures start.x != end.x && Abs(end.x - current.x) <= Abs(end.y - current.y) ==> r.y == StepTowards(current.y, end.y)
  {
    if end.x != start.x then
      var slope := (end.y - start.y) / (end.x - start.x);
      if Abs(end.x - current.x) > Abs(end.y - current.y) then
        var x := if end.x > current.x then current.x + 1.0 else current.x - 1.0;
        Vector2D(x, end.y - slope * (end.x - x))
      else
        var y := if end.y > current.y then current.y + 1.0 else current.y - 1.0;
        Vector2D(if slope != 0.0 then end.x - (end.y + y) / slope else current.x, y)
    else
      current
  }

  /** The Y step on a horizontal segment always leaves the segment's box, so the
      X value the model gives it is never read. */
  lemma FlatYStepLeavesTheLine(current: Vector2D, start: Vector2D, end: Vector2D)
    requires start.x != end.x && start.y == end.y
    requires IsPixelInLine(current, start, end)
    requires Abs(end.x - current.x) <= Abs(end.y - current.y)
    ensures !IsPixelInLine(NextPointInLine(current, start, end), start, end)
  {
  }

  /** The evidently intended step: a Y step recomputes X on the line
      (`end.X - (end.Y - y) / slope`), and a vertical segment steps along Y.
      Away from a horizontal segment's Y step, the new point lies on the line,
      and a vertical step keeps X and moves Y by one. */
  function NextPointOnLine(current: Vector2D, start: Vector2D, end: Vector2D): (r: Vector2D)
    ensures start.x != end.x && OnLine(current, start, end)
      && (Abs(end.x - current.x) > Abs(end.y - current.y) || start.y != end.y)
      ==> OnLine(r, start, end)
    ensures start.x == end.x ==> r.x == current.x && Abs(r.y - current.y) == 1.0
  {
    if end.x != start.x then
      if Abs(end.x - current.x) > Abs(end.y - current.y) then StepInX(current, start, end)
      else StepInY(current, start, end)
    else
      Vector2D(current.x, StepTowards(current.y, end.y))
  }

  /** One unit from `from` towards `to`, or away from it when they are equal. */
  function StepTowards(from: real, to: real): (r: real)
    ensures Abs(r - from) == 1.0
    ensures to != from ==> Abs(to - r) < Abs(to - from) || Abs(to - from) < 1.0
  {
    if to > from then from + 1.0 else from - 1.0
  }

  /** The X step of the corrected walk: X moves by one and Y follows the slope. */
  function StepInX(current: Vector2D, start: Vector2D, end: Vector2D): (r: Vector2D)
    requires start.x != end.x
    ensures OnLine(r, start, end)
    ensures Abs(r.x - current.x) == 1.0
  {
    var slope := (end.y - start.y) / (end.x - start.x);
    var x := StepTowards(current.x, end.x);
    assert slope * (end.x - start.x) == end.y - start.y;
    Vector2D(x, end.y - slope * (end.x - x))
  }

  /** The Y step of the corrected walk: Y moves by one and X follows the slope;
      a flat segment keeps X. */
  function StepInY(current: Vector2D, start: Vector2D, end: Vector2D): (r: Vector2D)
    requires start.x != end.x
    ensures start.y != end.y ==> OnLine(r, start, end)
    ensures start.y == end.y ==> r.x == current.x
    ensures Abs(r.y - current.y) == 1.0
  {
    var slope := (end.y - start.y) / (end.x - start.x);
    var y := StepTowards(current.y, end.y);
    if slope != 0.0 then
      assert slope * (end.x - start.x) == end.y - start.y;
      assert (end.x - (end.y - y) / slope - end.x) * slope == y - end.y;
      Vector2D(end.x - (end.y - y) / slope, y)
    else Vector2D(current.x, y)
  }

  /** On a steep segment the Y step as written lands off the line and outside
      the segment's box, while the intended step stays on both: from (0,0)
      towards (1,10) the source moves to (-0.1, 1) instead of (0.1, 1). */
  lemma SteepStepLeavesTheLine()
    ensures var s, e := Vector2D(0.0, 0.0), Vector2D(1.0, 10.0);
      && NextPointInLine(s, s, e) == Vector2D(-0.1, 1.0)
      && !OnLine(NextPointInLine(s, s, e), s, e)
      && !IsPixelInLine(NextPointInLine(s, s, e), s, e)
      && NextPointOnLine(s, s, e) == Vector2D(0.1, 1.0)
      && OnLine(NextPointOnLine(s, s, e), s, e)
      && IsPixelInLine(NextPointOnLine(s, s, e), s, e)
  {
  }

  /** A stepping function of the search: `(current, start, end) -> next`. */
  type Step = (Vector2D, Vector2D, Vector2D) -> Vector2D

  /** The points the search loop body runs on, and whether the loop condition
      failed (`exited`) before `fuel` iterations were used up. */
  datatype Trace = Trace(visited: seq<Vector2D>, exited: bool)

  /** The loop `for (p = from; IsPixelInLine(p, start, end); p = step(p, start, end))`
      run for at most `fuel` iterations. */
  function Walk(from: Vector2D, start: Vector2D, end: Vector2D, step: Step, fuel: nat): (t: Trace)
    ensures forall i :: 0 <= i < |t.visited| ==> IsPixelInLine(t.visited[i], start, end)
    ensures |t.visited| <= fuel
    ensures !t.exited ==> |t.visited| == fuel
    ensures 0 < fuel && IsPixelInLine(from, start, end) ==> 0 < |t.visited| && t.visited[0] == from
    ensures forall i :: 0 <= i < |t.visited| - 1 ==> t.visited[i + 1] == step(t.visited[i], start, end)
    ensures t.exited ==>
      if |t.visited| == 0 then !IsPixelInLine(from, start, end)
      else !IsPixelInLine(step(t.visited[|t.visited| - 1], start, end), start, end)
    decreases fuel
  {
    if !IsPixelInLine(from, start, end) then Trace([], true)
    else if fuel == 0 then Trace([], false)
    else
      var rest := Walk(step(from, start, end), start, end, step, fuel - 1);
      Trace([from] + rest.visited, rest.exited)
  }

  /** Fuel is only a bound: once the loop has ended within some fuel, more fuel
      yields the same trace. */
  lemma {:induction false} WalkIsStableUnderMoreFuel(from: Vector2D, start: Vector2D, end: Vector2D, step: Step, fuel: nat, more: nat)
    requires Walk(from, start, end, step, fuel).exited
    requires fuel <= more
    ensures Walk(from, start, end, step, more) == Walk(from, start, end, step, fuel)
    decreases fuel
  {
    if IsPixelInLine(from, start, end) {
      WalkIsStableUnderMoreFuel(step(from, start, end), start, end, step, fuel - 1, more - 1);
    }
  }

  /** On a vertical segment (`start.X == end.X`) the step as written never moves,
      so the loop runs forever on the start pixel: whatever the fuel, every
      iteration visits `start` and the loop has not ended. */
  lemma {:induction false} VerticalWalkNeverEnds(start: Vector2D, end: Vector2D, fuel: nat)
    requires start.x == end.x
    ensures Walk(start, start, end, NextPointInLine, fuel) == Trace(seq(fuel, _ => start), false)
    decreases fuel
  {
    EndPointsAreInLine(start, start, end);
    if fuel > 0 {
      VerticalWalkNeverEnds(start, end, fuel - 1);
      assert seq(fuel, _ => start) == [start] + seq(fuel - 1, _ => start);
    }
  }

  /** On the steep segment from (0,0) to (1,10) the walk as written visits only
      its start pixel. */
  lemma SteepWalkVisitsOnlyTheStart(fuel: nat)
    requires 0 < fuel
    ensures var s, e := Vector2D(0.0, 0.0), Vector2D(1.0, 10.0);
      Walk(s, s, e, NextPointInLine, fuel) == Trace([s], true)
  {
    var s, e := Vector2D(0.0, 0.0), Vector2D(1.0, 10.0);
    SteepStepLeavesTheLine();
    assert Walk(NextPointInLine(s, s, e), s, e, NextPointInLine, fuel - 1) == Trace([], true);
  }

  /** When both ends of the segment are the same point (both clamped to the
      same pixel, say), the intended step leaves it at once: the walk visits
      that point and ends, where the step as written revisits it forever. */
  lemma DegenerateWalkEnds(s: Vector2D, fuel: nat)
    requires 0 < fuel
    ensures Walk(s, s, s, NextPointOnLine, fuel) == Trace([s], true)
    ensures Walk(s, s, s, NextPointInLine, fuel) == Trace(seq(fuel, _ => s), false)
  {
    assert !IsPixelInLine(NextPointOnLine(s, s, s), s, s);
    assert Walk(NextPointOnLine(s, s, s), s, s, NextPointOnLine, fuel - 1) == Trace([], true);
    VerticalWalkNeverEnds(s, s, fuel);
  }
}
