/** RouteGroup: a generator of bent connector paths for edges that converge on
    one area. Every call hands out a path through the group's current stacking
    coordinates and then moves those coordinates by the bundle spacing, so
    successive paths run side by side instead of on top of each other. The
    generator's state is an explicit record threaded through the calls. */
module RouteGroups {
  import opened Geometry

  /** Paths leave the origin horizontally first (X) or vertically first (Y). */
  const XDirection: int := 1
  const YDirection: int := 0
  /** A stacking coordinate equal to this is "not set" and is never moved. */
  const Unset: int := -1

  /** `x` and `y` are the current stacking coordinates and `bend` the optional
      second break; `direction` is kept as the integer the caller passed, so an
      invalid selector can be represented. */
  datatype RouteGroup = RouteGroup(spacing: int, x: int, y: int, direction: int, bend: int)

  /** A group as the layout code builds it: default spacing, no second break. */
  function NewRouteGroup(startX: int, startY: int, direction: int): RouteGroup {
    RouteGroup(LineBundleSpacing, startX, startY, direction, Unset)
  }

  /** Moves one stacking coordinate by `delta` unless it is unset. */
  function Shift(c: int, delta: int): int {
    if c == Unset then Unset else c + delta
  }

  /** The state after one call: x grows, y and the break shrink. */
  function Next(g: RouteGroup): RouteGroup {
    g.(x := Shift(g.x, g.spacing), y := Shift(g.y, -g.spacing), bend := Shift(g.bend, -g.spacing))
  }

  /** One call of the generator for an edge leaving (originX, originY): the
      path's waypoints and the generator's next state. */
  function NextRoute(g: RouteGroup, originX: int, originY: int): (res: (seq<Point>, RouteGroup))
    ensures g.direction == XDirection ==>
      && |res.0| == 1 + (if g.y != Unset then 1 else 0) + (if g.bend != Unset then 1 else 0)
      && res.0[0] == Point(g.x, originY)
      && (g.y != Unset ==> res.0[1] == Point(g.x, g.y))
      && (g.bend != Unset ==> res.0[|res.0| - 1] == Point(g.bend, g.y))
    ensures g.direction == YDirection ==>
      && |res.0| == 1 + (if g.x != Unset then 1 else 0) + (if g.bend != Unset then 1 else 0)
      && res.0[0] == Point(originX, g.y)
      && (g.x != Unset ==> res.0[1] == Point(g.x, g.y))
      && (g.bend != Unset ==> res.0[|res.0| - 1] == Point(g.x, g.bend))
    ensures g.direction != XDirection && g.direction != YDirection ==> res.0 == []
    ensures res.1.spacing == g.spacing && res.1.direction == g.direction
    ensures g.x == Unset ==> res.1.x == Unset
    ensures g.x != Unset ==> res.1.x == g.x + g.spacing
    ensures g.y == Unset ==> res.1.y == Unset
    ensures g.y != Unset ==> res.1.y == g.y - g.spacing
    ensures g.bend == Unset ==> res.1.bend == Unset
    ensures g.bend != Unset ==> res.1.bend == g.bend - g.spacing
  {
    var route :=
      if g.direction == XDirection then
        [Point(g.x, originY)]
        + (if g.y != Unset then [Point(g.x, g.y)] else [])
        + (if g.bend != Unset then [Point(g.bend, g.y)] else [])
      else if g.direction == YDirection then
        [Point(originX, g.y)]
        + (if g.x != Unset then [Point(g.x, g.y)] else [])
        + (if g.bend != Unset then [Point(g.x, g.bend)] else [])
      else [];
    (route, Next(g))
  }

  /** Each segment of a polyline runs horizontally or vertically. */
  predicate AxisParallel(p: seq<Point>) {
    forall i | 0 <= i < |p| - 1 :: p[i].x == p[i + 1].x || p[i].y == p[i + 1].y
  }

  /** The connector, drawn from its origin through the waypoints, bends only
      at right angles, unless a second break is set while the coordinate
      between it and the first waypoint is not. */
  lemma NextRouteAxisParallel(g: RouteGroup, originX: int, originY: int)
    requires g.direction == XDirection ==> g.bend == Unset || g.y != Unset
    requires g.direction == YDirection ==> g.bend == Unset || g.x != Unset
    ensures AxisParallel([Point(originX, originY)] + NextRoute(g, originX, originY).0)
  {
  }

  /** The state after `k` calls. */
  function Advance(g: RouteGroup, k: nat): RouteGroup
    decreases k
  {
    if k == 0 then g else Advance(Next(g), k - 1)
  }

  /** The paths handed out for a sequence of edges, in call order, and the
      generator's final state. */
  function Routes(g: RouteGroup, origins: seq<Point>): (res: (seq<seq<Point>>, RouteGroup))
    ensures |res.0| == |origins|
    ensures g.direction == XDirection || g.direction == YDirection ==>
      forall i | 0 <= i < |res.0| :: |res.0[i]| >= 1
    decreases |origins|
  {
    if |origins| == 0 then ([], g)
    else
      var (route, g1) := NextRoute(g, origins[0].x, origins[0].y);
      var (rest, g2) := Routes(g1, origins[1..]);
      ([route] + rest, g2)
  }

  /** The i-th path is the one the generator produces after i calls, and the
      final state is the one after all calls. */
  lemma {:induction false} RoutesInOrder(g: RouteGroup, origins: seq<Point>)
    decreases |origins|
    ensures Routes(g, origins).1 == Advance(g, |origins|)
    ensures forall i | 0 <= i < |origins| ::
      Routes(g, origins).0[i] == NextRoute(Advance(g, i), origins[i].x, origins[i].y).0
  {
    if |origins| > 0 {
      RoutesInOrder(Next(g), origins[1..]);
      forall i | 0 <= i < |origins|
        ensures Routes(g, origins).0[i] == NextRoute(Advance(g, i), origins[i].x, origins[i].y).0
      {
        if i > 0 {
          assert origins[1..][i - 1] == origins[i];
        }
      }
    }
  }

  /** A coordinate whose progression never lands on the sentinel: starting
      from `c` and moving by whole multiples of `step`, -1 is never met. */
  predicate ClearOfSentinel(c: int, step: int)
    requires step > 0
  {
    (c - Unset) % step != 0
  }

  /** Moving by one step in either direction keeps a progression clear. */
  lemma ClearAfterStep(c: int, step: int)
    requires step > 0 && ClearOfSentinel(c, step)
    ensures c != Unset
    ensures ClearOfSentinel(c + step, step) && ClearOfSentinel(c - step, step)
  {
    var a := c - Unset;
    assert a + step == (a / step + 1) * step + a % step;
    DivModUnique(a + step, step, a / step + 1, a % step);
    assert a - step == (a / step - 1) * step + a % step;
    DivModUnique(a - step, step, a / step - 1, a % step);
  }

  /** The spacing and direction never change. */
  lemma {:induction false} AdvanceKeeps(g: RouteGroup, k: nat)
    decreases k
    ensures Advance(g, k).spacing == g.spacing && Advance(g, k).direction == g.direction
  {
    if k > 0 {
      AdvanceKeeps(Next(g), k - 1);
    }
  }

  /** Where one stacking coordinate is after k calls when it moves by `delta`
      per call and is frozen on the sentinel. */
  function Progression(c: int, delta: int, k: nat): int
    decreases k
  {
    if k == 0 then c else Progression(Shift(c, delta), delta, k - 1)
  }

  lemma {:induction false} AdvanceCoordinates(g: RouteGroup, k: nat)
    decreases k
    ensures Advance(g, k).x == Progression(g.x, g.spacing, k)
    ensures Advance(g, k).y == Progression(g.y, -g.spacing, k)
    ensures Advance(g, k).bend == Progression(g.bend, -g.spacing, k)
  {
    if k > 0 {
      AdvanceCoordinates(Next(g), k - 1);
    }
  }

  /** A progression clear of the sentinel is arithmetic. */
  lemma {:induction false} ClearProgression(c: int, step: int, up: bool, k: nat)
    requires step > 0 && ClearOfSentinel(c, step)
    decreases k
    ensures Progression(c, if up then step else -step, k) == if up then c + k * step else c - k * step
  {
    if k > 0 {
      ClearAfterStep(c, step);
      var c' := if up then c + step else c - step;
      ClearProgression(c', step, up, k - 1);
      assert (k - 1) * step + step == k * step;
    }
  }

  /** After k calls the stacking coordinates have moved by exactly k spacings
      (x up, y and the break down), provided their progressions never meet
      the sentinel. */
  lemma AdvanceMoves(g: RouteGroup, k: nat)
    requires g.spacing > 0
    ensures ClearOfSentinel(g.x, g.spacing) ==> Advance(g, k).x == g.x + k * g.spacing
    ensures ClearOfSentinel(g.y, g.spacing) ==> Advance(g, k).y == g.y - k * g.spacing
    ensures ClearOfSentinel(g.bend, g.spacing) ==> Advance(g, k).bend == g.bend - k * g.spacing
  {
    AdvanceCoordinates(g, k);
    if ClearOfSentinel(g.x, g.spacing) {
      ClearProgression(g.x, g.spacing, true, k);
    }
    if ClearOfSentinel(g.y, g.spacing) {
      ClearProgression(g.y, g.spacing, false, k);
    }
    if ClearOfSentinel(g.bend, g.spacing) {
      ClearProgression(g.bend, g.spacing, false, k);
    }
  }

  /** A coordinate that starts unset stays unset whatever the number of calls. */
  lemma {:induction false} UnsetStaysUnset(g: RouteGroup, k: nat)
    decreases k
    ensures g.x == Unset ==> Advance(g, k).x == Unset
    ensures g.y == Unset ==> Advance(g, k).y == Unset
    ensures g.bend == Unset ==> Advance(g, k).bend == Unset
  {
    if k > 0 {
      UnsetStaysUnset(Next(g), k - 1);
    }
  }

  /** The first waypoint of the i-th path, for either direction, once the
      relevant coordinate is known to progress arithmetically. */
  lemma FirstWaypoint(g: RouteGroup, origins: seq<Point>, i: nat)
    requires g.spacing > 0 && i < |origins|
    requires g.direction == XDirection || g.direction == YDirection
    ensures g.direction == XDirection && ClearOfSentinel(g.x, g.spacing) ==>
      Routes(g, origins).0[i][0] == Point(g.x + i * g.spacing, origins[i].y)
    ensures g.direction == YDirection && ClearOfSentinel(g.y, g.spacing) ==>
      Routes(g, origins).0[i][0] == Point(origins[i].x, g.y - i * g.spacing)
  {
    RoutesInOrder(g, origins);
    AdvanceKeeps(g, i);
    AdvanceMoves(g, i);
    var h := Advance(g, i);
    assert Routes(g, origins).0[i] == NextRoute(h, origins[i].x, origins[i].y).0;
  }

  /** Staggering: for an X group with positive spacing whose x never meets the
      sentinel, the i-th path starts at x = startX + i * spacing, so every path
      starts exactly one spacing to the right of the previous one. */
  lemma StaggeredAlongX(g: RouteGroup, origins: seq<Point>)
    requires g.direction == XDirection && g.spacing > 0
    requires ClearOfSentinel(g.x, g.spacing)
    ensures forall i | 0 <= i < |origins| ::
      Routes(g, origins).0[i][0] == Point(g.x + i * g.spacing, origins[i].y)
    ensures forall i | 0 <= i < |origins| - 1 ::
      Routes(g, origins).0[i + 1][0].x == Routes(g, origins).0[i][0].x + g.spacing
  {
    forall i | 0 <= i < |origins|
      ensures Routes(g, origins).0[i][0] == Point(g.x + i * g.spacing, origins[i].y)
    {
      FirstWaypoint(g, origins, i);
    }
    forall i | 0 <= i < |origins| - 1
      ensures Routes(g, origins).0[i + 1][0].x == Routes(g, origins).0[i][0].x + g.spacing
    {
      assert (i + 1) * g.spacing == i * g.spacing + g.spacing;
    }
  }

  /** The Y-direction mirror: the i-th path starts at y = startY - i * spacing. */
  lemma StaggeredAlongY(g: RouteGroup, origins: seq<Point>)
    requires g.direction == YDirection && g.spacing > 0
    requires ClearOfSentinel(g.y, g.spacing)
    ensures forall i | 0 <= i < |origins| ::
      Routes(g, origins).0[i][0] == Point(origins[i].x, g.y - i * g.spacing)
    ensures forall i | 0 <= i < |origins| - 1 ::
      Routes(g, origins).0[i + 1][0].y == Routes(g, origins).0[i][0].y - g.spacing
  {
    forall i | 0 <= i < |origins|
      ensures Routes(g, origins).0[i][0] == Point(origins[i].x, g.y - i * g.spacing)
    {
      FirstWaypoint(g, origins, i);
    }
    forall i | 0 <= i < |origins| - 1
      ensures Routes(g, origins).0[i + 1][0].y == Routes(g, origins).0[i][0].y - g.spacing
    {
      assert (i + 1) * g.spacing == i * g.spacing + g.spacing;
    }
  }

  /** An invalid direction yields no waypoints on any call (direct edges),
      while the state still advances. */
  lemma {:induction false} BadDirectionGivesDirectEdges(g: RouteGroup, origins: seq<Point>)
    requires g.direction != XDirection && g.direction != YDirection
    ensures forall i | 0 <= i < |origins| :: Routes(g, origins).0[i] == []
    ensures Routes(g, origins).1 == Advance(g, |origins|)
  {
    RoutesInOrder(g, origins);
    forall i | 0 <= i < |origins| ensures Routes(g, origins).0[i] == [] {
      AdvanceKeeps(g, i);
    }
  }

  /** The sentinel is an ordinary integer: a coordinate that steps onto -1
      freezes there, and later paths reuse it. Starting at x = -21 with the
      default spacing, the third and fourth paths both start at x = -1. */
  lemma SentinelFreezes()
    ensures var g := NewRouteGroup(-21, Unset, XDirection);
      var routes := Routes(g, [Point(0, 0), Point(0, 0), Point(0, 0), Point(0, 0)]).0;
      routes[0][0].x == -21 && routes[1][0].x == -11 && routes[2][0].x == -1 && routes[3][0].x == -1
  {
    var g := NewRouteGroup(-21, Unset, XDirection);
    assert Next(g).x == -11;
    assert Next(Next(g)).x == -1;
    assert Next(Next(Next(g))).x == -1;
  }
}
