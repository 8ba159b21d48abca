/** Collapsing the legs of a route at waypoints that were not asked for. */
module RouteCollapse {

  /** One unpacked segment; `turn` stands for the fields that collapsing only copies. */
  datatype PathData = PathData(weightUntilTurn: int, durationUntilTurn: int, turn: int)

  datatype Measure = Weight | Duration

  function Amount(s: PathData, m: Measure): int {
    match m
    case Weight => s.weightUntilTurn
    case Duration => s.durationUntilTurn
  }

  datatype Phantom = Phantom(forwardWeight: int, reverseWeight: int, forwardDuration: int, reverseDuration: int,
          location: int)

  datatype Endpoints = Endpoints(source: Phantom, target: Phantom)

  /** A route as the source keeps it: four vectors side by side. */
  datatype Route = Route(segments: seq<seq<PathData>>, endpoints: seq<Endpoints>,
                         sourceReversed: seq<bool>, targetReversed: seq<bool>, weight: int) {
    predicate Valid() {
      |endpoints| == |segments| && |sourceReversed| == |segments| && |targetReversed| == |segments|
    }
  }

  /** The same route leg by leg. */
  datatype Leg = Leg(path: seq<PathData>, source: Phantom, target: Phantom, sourceReversed: bool,
          targetReversed: bool) {
    /** Weight and duration from the source phantom, in the direction of travel. */
    function Travelled(m: Measure): int {
      match m
      case Weight => TravelledWeight()
      case Duration => TravelledDuration()
    }

    function TravelledWeight(): int {
      if sourceReversed then source.reverseWeight else source.forwardWeight
    }

    function TravelledDuration(): int {
      if sourceReversed then source.reverseDuration else source.forwardDuration
    }

    predicate NoTravel() {
      TravelledWeight() == 0 && TravelledDuration() == 0
    }
  }

  function LegOf(r: Route, i: nat): Leg
    requires r.Valid() && i < |r.segments|
  {
    Leg(r.segments[i], r.endpoints[i].source, r.endpoints[i].target, r.sourceReversed[i], r.targetReversed[i])
  }

  function Legs(r: Route): (legs: seq<Leg>)
    requires r.Valid()
    ensures |legs| == |r.segments|
  {
    seq(|r.segments|, (i: int) requires 0 <= i < |r.segments| => LegOf(r, i))
  }

  function Raise(s: PathData, weight: int, duration: int): PathData {
    s.(weightUntilTurn := s.weightUntilTurn + weight, durationUntilTurn := s.durationUntilTurn + duration)
  }

  /** The path of a leg that continues another one: its first segment gets the part from the source phantom back. */
  function Continued(leg: Leg): (path: seq<PathData>)
    ensures |path| == |leg.path|
  {
    if leg.path == [] then [] else leg.path[0 := Raise(leg.path[0], leg.TravelledWeight(), leg.TravelledDuration())]
  }

  function Join(a: Leg, b: Leg): Leg {
    Leg(a.path + Continued(b), a.source, b.target, a.sourceReversed, b.targetReversed)
  }

  function Count(mask: seq<bool>): (n: nat)
    ensures n <= |mask|
  {
    if mask == [] then 0 else Count(mask[..|mask| - 1]) + if mask[|mask| - 1] then 1 else 0
  }

  /** The legs with a new one starting at each true bit. */
  function Grouped(legs: seq<Leg>, mask: seq<bool>): (out: seq<Leg>)
    requires |legs| <= |mask| && (legs != [] ==> mask[0])
    ensures |out| == Count(mask[..|legs|]) && (legs != [] ==> out != [])
  {
    if legs == [] then []
    else
      var i := |legs| - 1;
      var before := Grouped(legs[..i], mask);
      assert mask[..|legs|][..i] == mask[..i];
      if mask[i] then before + [legs[i]]
      else before[|before| - 1 := Join(before[|before| - 1], legs[i])]
  }

  lemma SingleLeg(route: Route, mask: seq<bool>)
    requires route.Valid() && |route.segments| == 1 && mask != [] && mask[0]
    ensures Grouped(Legs(route), mask) == Legs(route)
  {
    var legs := Legs(route);
    assert Grouped(legs[..0], mask) == [];
    assert legs == [legs[0]];
  }

  function WithLeg(r: Route, path: seq<PathData>, e: Endpoints, source: bool, target: bool): Route {
    Route(r.segments + [path], r.endpoints + [e], r.sourceReversed + [source], r.targetReversed + [target], r.weight)
  }

  lemma Started(r: Route, route: Route, i: nat)
    requires r.Valid() && route.Valid() && i < |route.segments|
    ensures var r' := WithLeg(r, route.segments[i], route.endpoints[i], route.sourceReversed[i],
            route.targetReversed[i]);
            r'.Valid() && Legs(r') == Legs(r) + [Legs(route)[i]]
  {
  }

  function WithLast(r: Route, path: seq<PathData>, target: Phantom, reversed: bool): Route
    requires r.Valid() && r.segments != []
  {
    var last := |r.segments| - 1;
    Route(r.segments[last := path], r.endpoints[last := r.endpoints[last].(target := target)], r.sourceReversed,
          r.targetReversed[last := reversed], r.weight)
  }

  lemma Continues(r: Route, route: Route, i: nat, path: seq<PathData>)
    requires r.Valid() && route.Valid() && i < |route.segments| && r.segments != []
    requires path == r.segments[|r.segments| - 1] + Continued(LegOf(route, i))
    ensures var r' := WithLast(r, path, route.endpoints[i].target, route.targetReversed[i]);
            var last := |r.segments| - 1;
            r'.Valid() && Legs(r') == Legs(r)[last := Join(Legs(r)[last], Legs(route)[i])]
  {
  }

  /** How many segments stand before those of leg `i` in the output leg it goes to. */
  function Place(segments: seq<seq<PathData>>, mask: seq<bool>, i: nat): nat
    requires i < |segments| <= |mask|
  {
    if mask[i] || i == 0 then 0 else Place(segments, mask, i - 1) + |segments[i - 1]|
  }

  function Paths(legs: seq<Leg>): (segments: seq<seq<PathData>>)
    ensures |segments| == |legs|
  {
    seq(|legs|, (i: int) requires 0 <= i < |legs| => legs[i].path)
  }

  lemma {:induction false} PlacePrefix(legs: seq<Leg>, mask: seq<bool>, i: nat)
    requires i + 1 < |legs| <= |mask|
    ensures Place(Paths(legs), mask, i) == Place(Paths(legs[..|legs| - 1]), mask, i)
  {
    if i > 0 {
      PlacePrefix(legs, mask, i - 1);
    }
  }

  /** The open group is as long as the place behind its last leg says. */
  lemma {:induction false} GroupLength(legs: seq<Leg>, mask: seq<bool>)
    requires 0 < |legs| <= |mask| && mask[0]
    ensures var out, i := Grouped(legs, mask), |legs| - 1;
            |out| == Count(mask[..i + 1]) && out != []
            && |out[|out| - 1].path| == Place(Paths(legs), mask, i) + |legs[i].path|
  {
    hide Count;
    var i := |legs| - 1;
    if !mask[i] {
      GroupLength(legs[..i], mask);
      PlacePrefix(legs, mask, i - 1);
    }
  }

  /** The output leg that input leg `j` goes to has the right ends and size at the group's own ends. */
  predicate EndsAt(legs: seq<Leg>, mask: seq<bool>, out: seq<Leg>, j: nat)
    requires j < |legs| <= |mask|
  {
    var k := Count(mask[..j + 1]) - 1;
    && 0 <= k < |out|
    && (mask[j] ==> out[k].source == legs[j].source && out[k].sourceReversed == legs[j].sourceReversed)
    && (j == |legs| - 1 || mask[j + 1]
        ==> out[k].target == legs[j].target && out[k].targetReversed == legs[j].targetReversed
            && |out[k].path| == Place(Paths(legs), mask, j) + |legs[j].path|)
  }

  lemma LastLegEnds(legs: seq<Leg>, mask: seq<bool>)
    requires 0 < |legs| <= |mask| && mask[0]
    ensures EndsAt(legs, mask, Grouped(legs, mask), |legs| - 1)
  {
    var i := |legs| - 1;
    CountPositive(mask, i + 1);
    GroupLength(legs, mask);
    assert mask[..i + 1][..i] == mask[..i];
  }

  lemma EarlierLegEnds(legs: seq<Leg>, mask: seq<bool>, j: nat, before: seq<Leg>, out: seq<Leg>)
    requires j + 1 < |legs| <= |mask| && mask[0] && EndsAt(legs[..|legs| - 1], mask, before, j)
    requires |before| == Count(mask[..|legs| - 1]) && |before| <= |out|
    requires forall k :: 0 <= k < |before|
                         ==> out[k].source == before[k].source && out[k].sourceReversed == before[k].sourceReversed
    requires forall k :: 0 <= k < |before| - 1 ==> out[k] == before[k]
    requires mask[|legs| - 1] ==> before <= out
    ensures EndsAt(legs, mask, out, j)
  {
    hide Count;
    var i, k := |legs| - 1, Count(mask[..j + 1]) - 1;
    PlacePrefix(legs, mask, j);
    if mask[j + 1] && j + 1 < i {
      CountBound(mask, j + 2, i);
      CountNext(mask, j + 1);
    }
    assert legs[..i][j] == legs[j];
    if mask[i] {
      assert out[k] == before[k];
    }
  }

  lemma CountNext(mask: seq<bool>, n: nat)
    requires n < |mask|
    ensures Count(mask[..n + 1]) == Count(mask[..n]) + if mask[n] then 1 else 0
  {
    assert mask[..n + 1][..n] == mask[..n];
  }

  /** Every output leg runs from the source of its first part to the target of its last part. The part an input leg
      goes to is the number of true bits up to it, counted from zero. */
  lemma {:induction false} LegEnds(legs: seq<Leg>, mask: seq<bool>, j: nat)
    requires j < |legs| <= |mask| && mask[0]
    ensures EndsAt(legs, mask, Grouped(legs, mask), j)
  {
    hide EndsAt, Count;
    if j == |legs| - 1 {
      LastLegEnds(legs, mask);
    } else {
      LegEnds(legs[..|legs| - 1], mask, j);
      EarlierLegEnds(legs, mask, j, Grouped(legs[..|legs| - 1], mask), Grouped(legs, mask));
    }
  }

  lemma CountPositive(mask: seq<bool>, n: nat)
    requires 0 < n <= |mask| && mask[0]
    ensures 0 < Count(mask[..n])
  {
    if n > 1 {
      CountPositive(mask, n - 1);
      assert mask[..n][..n - 1] == mask[..n - 1];
    } else {
      assert mask[..1] == [mask[0]];
    }
  }

  lemma CountBound(mask: seq<bool>, a: nat, b: nat)
    requires a <= b <= |mask|
    ensures Count(mask[..a]) <= Count(mask[..b])
  {
    if a < b {
      CountBound(mask, a, b - 1);
      assert mask[..b][..b - 1] == mask[..b - 1];
    }
  }

  /** Segment `k` of input leg `i` stands at its place in the output, raised when it starts a continued leg. */
  predicate Placed(legs: seq<Leg>, mask: seq<bool>, out: seq<Leg>, i: nat, k: nat)
    requires i < |legs| <= |mask| && k < |legs[i].path|
  {
    var g, p := Count(mask[..i + 1]) - 1, Place(Paths(legs), mask, i) + k;
    0 <= g < |out| && p < |out[g].path|
    && out[g].path[p] == if mask[i] then legs[i].path[k] else Continued(legs[i])[k]
  }

  lemma LastPlaced(legs: seq<Leg>, mask: seq<bool>, k: nat)
    requires 0 < |legs| <= |mask| && mask[0] && k < |legs[|legs| - 1].path|
    ensures Placed(legs, mask, Grouped(legs, mask), |legs| - 1, k)
  {
    hide Count, Continued;
    var n := |legs| - 1;
    CountNext(mask, n);
    GroupLength(legs, mask);
    if !mask[n] {
      GroupLength(legs[..n], mask);
      PlacePrefix(legs, mask, n - 1);
    }
  }

  lemma ExtendedKeeps(G: seq<Leg>, x: Leg, starts: bool, g: nat, p: nat)
    requires (starts || G != []) && g < |G| && p < |G[g].path|
    ensures var out := Extended(G, x, starts); g < |out| && p < |out[g].path| && out[g].path[p] == G[g].path[p]
  {
    hide Continued;
  }

  lemma StaysPlaced(before: seq<Leg>, x: Leg, starts: bool, out: seq<Leg>, mask: seq<bool>, i: nat, k: nat)
    requires i < |before| < |mask| && k < |before[i].path| && (starts || out != [])
    requires Placed(before, mask, out, i, k)
    ensures Placed(before + [x], mask, Extended(out, x, starts), i, k)
  {
    hide Count, Continued, Place, Extended, Paths;
    PlacePrefix(before + [x], mask, i);
    assert (before + [x])[..|before|] == before;
    ExtendedKeeps(out, x, starts, Count(mask[..i + 1]) - 1, Place(Paths(before), mask, i) + k);
  }

  lemma {:induction false} SegmentPlaced(legs: seq<Leg>, mask: seq<bool>, i: nat, k: nat)
    requires i < |legs| <= |mask| && mask[0] && k < |legs[i].path|
    ensures Placed(legs, mask, Grouped(legs, mask), i, k)
  {
    hide Placed, Grouped, Extended;
    if i == |legs| - 1 {
      LastPlaced(legs, mask, k);
    } else {
      var n := |legs| - 1;
      SegmentPlaced(legs[..n], mask, i, k);
      GroupedStep(legs, mask);
      StaysPlaced(legs[..n], legs[n], mask[n], Grouped(legs[..n], mask), mask, i, k);
      assert legs == legs[..n] + [legs[n]];
    }
  }

  /** Segment `k` of input leg `i` stands at its place in the output. The first segment of a leg that continues another
      one gets back what was travelled from the source phantom, in the direction of travel; nothing else changes. */
  predicate SegmentKept(route: Route, mask: seq<bool>, collapsed: Route, i: nat, k: nat)
    requires route.Valid() && i < |route.segments| <= |mask| && k < |route.segments[i]|
  {
    var g, p := Count(mask[..i + 1]) - 1, Place(route.segments, mask, i) + k;
    0 <= g < |collapsed.segments| && p < |collapsed.segments[g]| &&
    var before, after := route.segments[i][k], collapsed.segments[g][p];
    var source, raised := route.endpoints[i].source, !mask[i] && k == 0;
    var weight := if route.sourceReversed[i] then source.reverseWeight else source.forwardWeight;
    var duration := if route.sourceReversed[i] then source.reverseDuration else source.forwardDuration;
    && after.turn == before.turn
    && after.weightUntilTurn == before.weightUntilTurn + (if raised then weight else 0)
    && after.durationUntilTurn == before.durationUntilTurn + if raised then duration else 0
  }

  /** What becomes of input leg `i`: its segments, the source when it starts an output leg, and the target when it ends
      one. */
  predicate LegKept(route: Route, mask: seq<bool>, collapsed: Route, i: nat)
    requires route.Valid() && collapsed.Valid() && i < |route.segments| <= |mask|
  {
    var g := Count(mask[..i + 1]) - 1;
    && 0 <= g < |collapsed.segments|
    && (forall k :: 0 <= k < |route.segments[i]| ==> SegmentKept(route, mask, collapsed, i, k))
    && (mask[i]
        ==> collapsed.endpoints[g].source == route.endpoints[i].source
            && collapsed.sourceReversed[g] == route.sourceReversed[i])
    && (i == |route.segments| - 1 || mask[i + 1]
        ==> collapsed.endpoints[g].target == route.endpoints[i].target
            && collapsed.targetReversed[g] == route.targetReversed[i]
            && |collapsed.segments[g]| == Place(route.segments, mask, i) + |route.segments[i]|)
  }

  lemma PathsOfRoute(route: Route)
    requires route.Valid()
    ensures Paths(Legs(route)) == route.segments
  {
  }

  lemma LegAt(route: Route, i: nat)
    requires route.Valid() && i < |route.segments|
    ensures i < |Legs(route)| && Legs(route)[i] == LegOf(route, i)
  {
  }

  lemma SegmentsKept(route: Route, mask: seq<bool>, collapsed: Route, i: nat, k: nat)
    requires route.Valid() && collapsed.Valid() && i < |route.segments| <= |mask| && mask[0] && k < |route.segments[i]|
    requires Legs(collapsed) == Grouped(Legs(route), mask)
    ensures SegmentKept(route, mask, collapsed, i, k)
  {
    hide Grouped, Count, Place, Legs, Paths;
    PathsOfRoute(route);
    LegAt(route, i);
    SegmentPlaced(Legs(route), mask, i, k);
    LegAt(collapsed, Count(mask[..i + 1]) - 1);
  }

  lemma EndsKept(route: Route, mask: seq<bool>, collapsed: Route, i: nat)
    requires route.Valid() && collapsed.Valid() && i < |route.segments| <= |mask| && mask[0]
    requires Legs(collapsed) == Grouped(Legs(route), mask)
    requires forall k :: 0 <= k < |route.segments[i]| ==> SegmentKept(route, mask, collapsed, i, k)
    ensures LegKept(route, mask, collapsed, i)
  {
    hide Grouped, Count, Place, SegmentKept, Legs, Paths;
    PathsOfRoute(route);
    LegAt(route, i);
    LegEnds(Legs(route), mask, i);
    LegAt(collapsed, Count(mask[..i + 1]) - 1);
  }

  lemma LegsKept(route: Route, mask: seq<bool>, collapsed: Route)
    requires route.Valid() && collapsed.Valid() && 0 < |route.segments| <= |mask| && mask[0]
    requires Legs(collapsed) == Grouped(Legs(route), mask)
    ensures forall i :: 0 <= i < |route.segments| ==> LegKept(route, mask, collapsed, i)
  {
    hide Legs, Grouped, LegKept, SegmentKept;
    forall i | 0 <= i < |route.segments| ensures LegKept(route, mask, collapsed, i) {
      forall k | 0 <= k < |route.segments[i]| ensures SegmentKept(route, mask, collapsed, i, k) {
        SegmentsKept(route, mask, collapsed, i, k);
      }
      EndsKept(route, mask, collapsed, i);
    }
  }

  /** `CollapseInternalRouteResult`. */
  method Collapse(route: Route, isWaypoint: seq<bool>) returns (collapsed: Route)
    requires route.Valid() && |route.segments| < |isWaypoint| && isWaypoint[0] && route.segments != []
    ensures collapsed.Valid() && collapsed.weight == route.weight
    ensures Legs(collapsed) == Grouped(Legs(route), isWaypoint)
            && |collapsed.segments| == Count(isWaypoint[..|route.segments|])
    ensures forall i :: 0 <= i < |route.segments| ==> LegKept(route, isWaypoint, collapsed, i)
    ensures |route.segments| == 1 ==> collapsed == route
  {
    hide Grouped, Join, Legs, Count, LegKept;
    if |route.segments| == 1 {
      SingleLeg(route, isWaypoint);
      LegsKept(route, isWaypoint, route);
      return route;
    }
    var segments, endpoints, sourceReversed, targetReversed := [], [], [], [];
    var i := 0;
    while i < |route.segments|
      invariant i <= |route.segments|
                && Route(segments, endpoints, sourceReversed, targetReversed, route.weight).Valid()
      invariant Legs(Route(segments, endpoints, sourceReversed, targetReversed, route.weight))
                == Grouped(Legs(route)[..i], isWaypoint)
    {
      ghost var before := Route(segments, endpoints, sourceReversed, targetReversed, route.weight);
      if isWaypoint[i] {
        segments := segments + [route.segments[i]];
        endpoints := endpoints + [route.endpoints[i]];
        sourceReversed := sourceReversed + [route.sourceReversed[i]];
        targetReversed := targetReversed + [route.targetReversed[i]];
        Started(before, route, i);
      } else {
        var last := |segments| - 1;
        endpoints := endpoints[last := endpoints[last].(target := route.endpoints[i].target)];
        targetReversed := targetReversed[last := route.targetReversed[i]];
        if route.segments[i] != [] {
          var oldSize, path := |segments[last]|, segments[last] + route.segments[i];
          var source, first := route.endpoints[i].source, path[oldSize];
          var weight := if route.sourceReversed[i] then source.reverseWeight else source.forwardWeight;
          var duration := if route.sourceReversed[i] then source.reverseDuration else source.forwardDuration;
          path := path[oldSize := first.(weightUntilTurn := first.weightUntilTurn + weight,
                                         durationUntilTurn := first.durationUntilTurn + duration)];
          assert path == segments[last] + Continued(LegOf(route, i));
          segments := segments[last := path];
        } else {
          assert segments[last := segments[last]] == segments && segments[last] + [] == segments[last];
        }
        Continues(before, route, i, segments[last]);
      }
      assert Legs(route)[..i + 1][..i] == Legs(route)[..i];
      GroupedStep(Legs(route)[..i + 1], isWaypoint);
      i := i + 1;
    }
    assert Legs(route)[..i] == Legs(route);
    collapsed := Route(segments, endpoints, sourceReversed, targetReversed, route.weight);
    LegsKept(route, isWaypoint, collapsed);
  }

  /** All segments of the legs, one after the other. */
  function Flatten(legs: seq<Leg>): seq<PathData> {
    if legs == [] then [] else Flatten(legs[..|legs| - 1]) + legs[|legs| - 1].path
  }

  /** The input's segments in order, with the part from the source phantom added where a leg continues another one. */
  function Parts(legs: seq<Leg>, mask: seq<bool>): (parts: seq<PathData>)
    requires |legs| <= |mask|
  {
    if legs == [] then []
    else
      var i := |legs| - 1;
      Parts(legs[..i], mask) + if mask[i] then legs[i].path else Continued(legs[i])
  }

  lemma FlattenExtended(G: seq<Leg>, x: Leg, starts: bool)
    requires starts || G != []
    ensures Flatten(Extended(G, x, starts)) == Flatten(G) + if starts then x.path else Continued(x)
  {
    hide Continued;
    if starts {
      assert (G + [x])[..|G|] == G;
    } else {
      var last := |G| - 1;
      assert G[last := Join(G[last], x)][..last] == G[..last];
      assert Flatten(G[..last]) + (G[last].path + Continued(x)) == Flatten(G) + Continued(x);
    }
  }

  lemma {:induction false} SegmentsInOrder(legs: seq<Leg>, mask: seq<bool>)
    requires |legs| <= |mask| && (legs != [] ==> mask[0])
    ensures Flatten(Grouped(legs, mask)) == Parts(legs, mask)
  {
    if legs != [] {
      hide Grouped, Flatten, Continued, Extended;
      var i := |legs| - 1;
      SegmentsInOrder(legs[..i], mask);
      GroupedStep(legs, mask);
      FlattenExtended(Grouped(legs[..i], mask), legs[i], mask[i]);
    }
  }

  function Total(path: seq<PathData>, m: Measure): int {
    if path == [] then 0 else Total(path[..|path| - 1], m) + Amount(path[|path| - 1], m)
  }

  lemma {:induction false} TotalConcat(a: seq<PathData>, b: seq<PathData>, m: Measure)
    ensures Total(a + b, m) == Total(a, m) + Total(b, m)
  {
    if b == [] {
      assert a + b == a;
    } else {
      var n := |b| - 1;
      assert (a + b)[..|a| + n] == a + b[..n];
      TotalConcat(a, b[..n], m);
    }
  }

  /** What collapsing adds: the travelled part of the source of every non-empty leg that continues another one. */
  function Added(legs: seq<Leg>, mask: seq<bool>, m: Measure): int
    requires |legs| <= |mask|
  {
    if legs == [] then 0
    else
      var i := |legs| - 1;
      Added(legs[..i], mask, m) + if !mask[i] && legs[i].path != [] then legs[i].Travelled(m) else 0
  }

  lemma ContinuedTotal(leg: Leg, m: Measure)
    ensures Total(Continued(leg), m) == Total(leg.path, m) + if leg.path != [] then leg.Travelled(m) else 0
  {
    if leg.path != [] {
      var first, rest := leg.path[..1], leg.path[1..];
      var raised := [Raise(leg.path[0], leg.TravelledWeight(), leg.TravelledDuration())];
      assert leg.path == first + rest && Continued(leg) == raised + rest;
      TotalConcat(first, rest, m);
      TotalConcat(raised, rest, m);
      assert first[..0] == [] && raised[..0] == [];
    }
  }

  lemma {:induction false} PartsTotal(legs: seq<Leg>, mask: seq<bool>, m: Measure)
    requires |legs| <= |mask|
    ensures Total(Parts(legs, mask), m) == Total(Flatten(legs), m) + Added(legs, mask, m)
  {
    if legs != [] {
      var i := |legs| - 1;
      PartsTotal(legs[..i], mask, m);
      ContinuedTotal(legs[i], m);
      TotalConcat(Parts(legs[..i], mask), if mask[i] then legs[i].path else Continued(legs[i]), m);
      TotalConcat(Flatten(legs[..i]), legs[i].path, m);
    }
  }

  /** Conservation: weight and duration of the route grow by exactly the travelled source parts. */
  lemma CollapseConserves(legs: seq<Leg>, mask: seq<bool>, m: Measure)
    requires |legs| <= |mask| && (legs != [] ==> mask[0])
    ensures Total(Flatten(Grouped(legs, mask)), m) == Total(Flatten(legs), m) + Added(legs, mask, m)
  {
    SegmentsInOrder(legs, mask);
    PartsTotal(legs, mask, m);
  }

  /** `InternalRouteResult::duration`. */
  method TotalDuration(route: Route) returns (ret: int)
    requires route.Valid()
    ensures ret == Total(Flatten(Legs(route)), Duration)
  {
    ret := 0;
    var i := 0;
    while i < |route.segments|
      invariant i <= |route.segments| && ret == Total(Flatten(Legs(route)[..i]), Duration)
    {
      var leg, j := route.segments[i], 0;
      ghost var before := ret;
      while j < |leg|
        invariant j <= |leg| && ret == before + Total(leg[..j], Duration)
      {
        assert leg[..j + 1][..j] == leg[..j];
        ret := ret + leg[j].durationUntilTurn;
        j := j + 1;
      }
      assert leg[..j] == leg && Legs(route)[..i + 1][..i] == Legs(route)[..i];
      TotalConcat(Flatten(Legs(route)[..i]), leg, Duration);
      i := i + 1;
    }
    assert Legs(route)[..i] == Legs(route);
  }

  /** The mask that keeps a waypoint when both collapses keep it; the second one counts the legs left by the first. */
  function Combined(first: seq<bool>, second: seq<bool>): (mask: seq<bool>)
    requires Count(first) <= |second|
    ensures |mask| == |first|
  {
    if first == [] then []
    else
      var i := |first| - 1;
      Combined(first[..i], second) + [first[i] && second[Count(first[..i])]]
  }

  lemma ContinuedJoin(b: Leg, c: Leg)
    ensures b.path != [] ==> Continued(Join(b, c)) == Continued(b) + Continued(c)
    ensures b.path == [] && (c.path == [] || b.NoTravel()) ==> Continued(Join(b, c)) == Continued(c)
    ensures b.path == [] ==> Continued(b) == [] && Join(b, c).path == Continued(c)
  {
    if b.path == [] {
      assert [] + Continued(c) == Continued(c);
    }
  }

  /** Joining is associative unless an empty middle leg loses the part from its source. */
  lemma JoinAssociates(a: Leg, b: Leg, c: Leg)
    ensures Join(a, Join(b, c)) == Join(Join(a, b), c) <==> b.path != [] || c.path == [] || b.NoTravel()
  {
    hide Continued, Leg.NoTravel;
    ContinuedJoin(b, c);
    if b.path != [] {
      assert a.path + (Continued(b) + Continued(c)) == (a.path + Continued(b)) + Continued(c);
    } else if c.path == [] || b.NoTravel() {
      assert a.path + [] == a.path;
    } else {
      JoinedDiffer(a, b, c, Join(a, b));
    }
  }

  lemma {:induction false} CombinedAt(first: seq<bool>, second: seq<bool>, i: nat)
    requires Count(first) <= |second| && i < |first|
    ensures first[i] ==> Count(first[..i]) < |second|
    ensures Combined(first, second)[i] == (first[i] && second[Count(first[..i])])
  {
    var n := |first| - 1;
    if i < n {
      CombinedAt(first[..n], second, i);
      assert first[..n][..i] == first[..i];
    }
  }

  predicate NoSegments(legs: seq<Leg>, from: nat) {
    forall k :: from <= k < |legs| ==> legs[k].path == []
  }

  /** Leg `j` starts the group that is still open. */
  predicate Opens(legs: seq<Leg>, mask: seq<bool>, j: nat)
    requires |legs| <= |mask|
  {
    j < |legs| && mask[j] && forall k :: j < k < |legs| ==> !mask[k]
  }

  /** The open group inherits its source from the leg that starts it. */
  lemma {:induction false} OpenGroup(legs: seq<Leg>, mask: seq<bool>) returns (j: nat)
    requires 0 < |legs| <= |mask| && mask[0]
    ensures Opens(legs, mask, j)
    ensures var out := Grouped(legs, mask);
            var g := out[|out| - 1];
            && g.source == legs[j].source && g.sourceReversed == legs[j].sourceReversed && |out| - 1 == Count(mask[..j])
            && (g.path == [] <==> NoSegments(legs, j))
  {
    hide Grouped, Count, Continued;
    var i := |legs| - 1;
    CountNext(mask, i);
    GroupedStep(legs, mask);
    if mask[i] {
      j := i;
    } else {
      j := OpenGroup(legs[..i], mask);
      assert NoSegments(legs, j) <==> NoSegments(legs[..i], j) && legs[i].path == [];
    }
  }

  /** Leg `j` starts an inner group, has no segments although its source phantom is not free, is followed in its
      group by a leg `i` that has some, and the group itself is joined to the one before. */
  predicate Lossy(legs: seq<Leg>, first: seq<bool>, second: seq<bool>, j: nat, i: nat)
    requires |legs| <= |first| && Count(first) <= |second|
  {
    && j < i < |legs| && first[j] && !Combined(first, second)[j] && legs[j].path == [] && !legs[j].NoTravel()
    && legs[i].path != []
    && forall k :: j < k <= i ==> !first[k] && (k < i ==> legs[k].path == [])
  }

  /** Adding leg `x` to the last inner group is harmless for the outer collapse. */
  predicate Harmless(g: Leg, x: Leg, outer: bool) {
    outer || g.path != [] || x.path == [] || g.NoTravel()
  }

  predicate Lossless(legs: seq<Leg>, first: seq<bool>, second: seq<bool>)
    requires |legs| <= |first| && Count(first) <= |second| && (legs != [] ==> first[0])
  {
    legs == [] ||
    var i := |legs| - 1;
    var before := Grouped(legs[..i], first);
    && Lossless(legs[..i], first, second)
    && (CountBound(first, i, |first|); assert first[..|first|] == first;
        first[i] || Harmless(before[|before| - 1], legs[i], second[|before| - 1]))
  }

  predicate SameEnds(a: seq<Leg>, b: seq<Leg>) {
    |a| == |b| && forall k :: 0 <= k < |a| ==> a[k].(path := []) == b[k].(path := [])
  }

  /** Two lists of legs with the same ends differ after a leg is joined to both exactly when they differed before. */
  lemma JoinedEqual(a: seq<Leg>, b: seq<Leg>, x: Leg)
    requires SameEnds(a, b) && a != []
    ensures var last := |a| - 1;
            var a', b' := a[last := Join(a[last], x)], b[last := Join(b[last], x)];
            SameEnds(a', b') && (a' == b' <==> a == b)
  {
    var last := |a| - 1;
    var a', b' := a[last := Join(a[last], x)], b[last := Join(b[last], x)];
    if a' == b' {
      assert a[last].path == a'[last].path[..|a'[last].path| - |x.path|] == b[last].path;
      forall k | 0 <= k < |a| ensures a[k] == b[k] {
        assert a'[k] == b'[k] && a[k].(path := []) == b[k].(path := []);
      }
    }
  }

  /** When the middle leg is empty but not free, joining in the other order gives another path, whatever came before. */
  lemma JoinedDiffer(h: Leg, g: Leg, x: Leg, k: Leg)
    requires g.path == [] && x.path != [] && !g.NoTravel()
    ensures Join(h, Join(g, x)).path != Join(k, x).path
  {
    var c, e := Continued(Join(g, x)), Continued(x);
    assert Join(g, x).path == e;
    assert c[0] == Raise(e[0], g.TravelledWeight(), g.TravelledDuration()) != e[0];
    assert |h.path + c| == |h.path| + |e| && |k.path + e| == |k.path| + |e|;
    if |h.path| == |k.path| {
      assert (h.path + c)[|h.path|] == c[0];
      assert (k.path + e)[|k.path|] == e[0];
    }
  }

  /** The masks fit: the first waypoint of each is kept, and the second one has a bit for every leg the first one
      leaves. */
  predicate Fit(legs: seq<Leg>, first: seq<bool>, second: seq<bool>) {
    |legs| <= |first| && Count(first) <= |second| && first != [] && first[0] && second != [] && second[0]
  }

  lemma Fits(legs: seq<Leg>, first: seq<bool>, second: seq<bool>)
    requires Fit(legs, first, second)
    ensures Count(first[..|legs|]) <= |second| && Combined(first, second)[0]
  {
    CountBound(first, |legs|, |first|);
    assert first[..|first|] == first;
    CombinedAt(first, second, 0);
  }

  function Twice(legs: seq<Leg>, first: seq<bool>, second: seq<bool>): seq<Leg>
    requires Fit(legs, first, second)
  {
    Fits(legs, first, second);
    Grouped(Grouped(legs, first), second)
  }

  function Once(legs: seq<Leg>, first: seq<bool>, second: seq<bool>): seq<Leg>
    requires Fit(legs, first, second)
  {
    Fits(legs, first, second);
    Grouped(legs, Combined(first, second))
  }

  function Extended(legs: seq<Leg>, x: Leg, starts: bool): seq<Leg>
    requires starts || legs != []
  {
    if starts then legs + [x] else legs[|legs| - 1 := Join(legs[|legs| - 1], x)]
  }

  lemma GroupedStep(legs: seq<Leg>, mask: seq<bool>)
    requires 0 < |legs| <= |mask| && mask[0]
    ensures var i := |legs| - 1;
            (mask[i] || Grouped(legs[..i], mask) != [])
                && Grouped(legs, mask) == Extended(Grouped(legs[..i], mask), legs[i], mask[i])
  {
  }

  lemma ExtendedEqual(a: seq<Leg>, b: seq<Leg>, x: Leg, starts: bool)
    requires SameEnds(a, b) && (starts || a != [])
    ensures SameEnds(Extended(a, x, starts), Extended(b, x, starts))
    ensures Extended(a, x, starts) == Extended(b, x, starts) <==> a == b
  {
    if starts {
      assert Extended(a, x, starts)[..|a|] == a && Extended(b, x, starts)[..|a|] == b;
    } else {
      JoinedEqual(a, b, x);
    }
  }

  lemma LosslessStep(legs: seq<Leg>, first: seq<bool>, second: seq<bool>)
    requires Fit(legs, first, second) && legs != []
    ensures var i := |legs| - 1;
            var G := Grouped(legs[..i], first);
            && |G| <= |second| && (first[i] ==> |G| < |second|)
            && Combined(first, second)[i] == (first[i] && second[|G|])
            && (!first[i] ==> G != [])
            && (Lossless(legs, first, second)
                <==> Lossless(legs[..i], first, second) && (first[i] || Harmless(G[|G| - 1], legs[i], second[|G| - 1])))
  {
    var i := |legs| - 1;
    Fits(legs[..i], first, second);
    CombinedAt(first, second, i);
  }

  lemma TwiceStep(legs: seq<Leg>, first: seq<bool>, second: seq<bool>)
    requires Fit(legs, first, second) && legs != []
    ensures var i := |legs| - 1;
            var G := Grouped(legs[..i], first);
            && |G| <= |second| && (if first[i] then |G| < |second| else G != [])
            && Twice(legs[..i], first, second) == Grouped(G, second)
            && Twice(legs, first, second) == Grouped(Extended(G, legs[i], first[i]), second)
  {
    hide Grouped, Extended, Lossless, Harmless, Count, Combined;
    LosslessStep(legs, first, second);
    GroupedStep(legs, first);
  }

  lemma OnceStep(legs: seq<Leg>, first: seq<bool>, second: seq<bool>)
    requires Fit(legs, first, second) && legs != []
    ensures var i := |legs| - 1;
            var once, starts := Once(legs[..i], first, second), Combined(first, second)[i];
            (starts || once != []) && Once(legs, first, second) == Extended(once, legs[i], starts)
  {
    hide Grouped, Extended, Count, Combined;
    Fits(legs, first, second);
    Fits(legs[..|legs| - 1], first, second);
    GroupedStep(legs, Combined(first, second));
  }

  lemma {:induction false} TwiceIsOnce(legs: seq<Leg>, first: seq<bool>, second: seq<bool>)
    requires Fit(legs, first, second)
    ensures SameEnds(Twice(legs, first, second), Once(legs, first, second))
    ensures Twice(legs, first, second) == Once(legs, first, second) <==> Lossless(legs, first, second)
  {
    hide Grouped, Extended, Lossless, Harmless, Count, Combined, SameEnds, Twice, Once;
    if legs == [] {
      NothingToCollapse(first, second);
    } else {
      var i := |legs| - 1;
      var x, before := legs[i], legs[..i];
      var G, once := Grouped(before, first), Once(before, first, second);
      TwiceIsOnce(before, first, second);
      TwiceStep(legs, first, second);
      OnceStep(legs, first, second);
      LosslessStep(legs, first, second);
      if first[i] {
        FreshGroup(G, x, second);
        ExtendedEqual(Grouped(G, second), once, x, second[|G|]);
        assert Extended(G, x, true) == G + [x] by {
          ExtendedFresh(G, x);
        }
      } else {
        OldGroup(G, x, second, once);
      }
    }
  }

  lemma ExtendedFresh(G: seq<Leg>, x: Leg)
    ensures Extended(G, x, true) == G + [x]
  {
  }

  lemma NothingToCollapse(first: seq<bool>, second: seq<bool>)
    requires Fit([], first, second)
    ensures Twice([], first, second) == [] == Once([], first, second) && Lossless([], first, second) && SameEnds([], [])
  {
  }

  lemma FreshGroup(G: seq<Leg>, x: Leg, second: seq<bool>)
    requires |G| < |second| && second[0]
    ensures (second[|G|] || Grouped(G, second) != [])
            && Grouped(G + [x], second) == Extended(Grouped(G, second), x, second[|G|])
  {
    GroupedStep(G + [x], second);
    assert (G + [x])[..|G|] == G;
  }

  /** One more leg in the open inner group. */
  lemma OldGroup(G: seq<Leg>, x: Leg, second: seq<bool>, once: seq<Leg>)
    requires 0 < |G| <= |second| && second[0] && SameEnds(Grouped(G, second), once)
    ensures var twice := Grouped(Extended(G, x, false), second);
            var harmless := Harmless(G[|G| - 1], x, second[|G| - 1]);
            && SameEnds(twice, Extended(once, x, false))
            && (twice == Extended(once, x, false) <==> Grouped(G, second) == once && harmless)
  {
    hide Grouped, Join, Count, SameEnds, Harmless;
    var n := |G| - 1;
    var g, rest := G[n], Grouped(G[..n], second);
    var G' := Extended(G, x, false);
    GroupedStep(G, second);
    GroupedStep(G', second);
    assert G'[..n] == G[..n] && G'[n] == Join(g, x);
    if second[n] {
      ExtendedTwice(rest, g, x);
      ExtendedEqual(Grouped(G, second), once, x, false);
      HarmlessOutside(g, x);
    } else {
      InnerJoin(rest, g, x, once);
    }
  }

  lemma HarmlessOutside(g: Leg, x: Leg)
    ensures Harmless(g, x, true)
  {
  }

  lemma ExtendedTwice(rest: seq<Leg>, g: Leg, x: Leg)
    ensures Extended(Extended(rest, g, true), x, false) == Extended(rest, Join(g, x), true)
  {
  }

  lemma InnerJoin(rest: seq<Leg>, g: Leg, x: Leg, once: seq<Leg>)
    requires rest != [] && SameEnds(Extended(rest, g, false), once)
    ensures var twice := Extended(rest, Join(g, x), false);
            && SameEnds(twice, Extended(once, x, false))
            && (twice == Extended(once, x, false) <==> Extended(rest, g, false) == once && Harmless(g, x, false))
  {
    hide Continued;
    var last, twice := |rest| - 1, Extended(rest, Join(g, x), false);
    JoinAssociates(rest[last], g, x);
    if Harmless(g, x, false) {
      assert twice == Extended(Extended(rest, g, false), x, false);
      ExtendedEqual(Extended(rest, g, false), once, x, false);
    } else {
      JoinedDiffer(rest[last], g, x, once[last]);
      assert twice[last].path != Extended(once, x, false)[last].path;
      SameEndsUpdate(Extended(rest, g, false), once, x, twice);
    }
  }

  lemma SameEndsUpdate(H: seq<Leg>, once: seq<Leg>, x: Leg, twice: seq<Leg>)
    requires SameEnds(H, once) && H != [] && |twice| == |H|
    requires forall k :: 0 <= k < |H| - 1 ==> twice[k] == H[k]
    requires twice[|H| - 1].(path := []) == Join(H[|H| - 1], x).(path := [])
    ensures SameEnds(twice, Extended(once, x, false))
  {
  }

  lemma NeverLossy(legs: seq<Leg>, first: seq<bool>, second: seq<bool>, i: nat)
    requires Fit(legs, first, second) && i < |legs| && first[i]
    ensures forall j: nat :: !Lossy(legs, first, second, j, i)
  {
  }

  /** The last step is harmful exactly when some leg starts a group and loses its source there. */
  lemma LastStep(legs: seq<Leg>, first: seq<bool>, second: seq<bool>)
    requires Fit(legs, first, second) && legs != []
    ensures var i := |legs| - 1;
            var G := Grouped(legs[..i], first);
            && |G| <= |second| && (!first[i] ==> G != [])
            && (first[i] || Harmless(G[|G| - 1], legs[i], second[|G| - 1])
                <==> forall j: nat :: !Lossy(legs, first, second, j, i))
  {
    hide Grouped, Count, Combined, Lossless, NoSegments, Opens, Lossy;
    var i := |legs| - 1;
    var before := legs[..i];
    LosslessStep(legs, first, second);
    if first[i] {
      NeverLossy(legs, first, second, i);
    } else {
      var j := OpenGroup(before, first);
      OpensEarlier(before, first, j);
      CombinedAt(first, second, j);
      OnlyOpens(legs, first, second, j, i);
      assert before[j] == legs[j];
    }
  }

  lemma OpensEarlier(legs: seq<Leg>, mask: seq<bool>, j: nat)
    requires |legs| <= |mask| && Opens(legs, mask, j)
    ensures j < |legs| && mask[j]
  {
  }

  lemma OnlyOpens(legs: seq<Leg>, first: seq<bool>, second: seq<bool>, j: nat, i: nat)
    requires Fit(legs, first, second) && i + 1 == |legs| && !first[i] && Opens(legs[..i], first, j)
    ensures Lossy(legs, first, second, j, i)
            <==> !Combined(first, second)[j] && NoSegments(legs[..i], j) && !legs[j].NoTravel() && legs[i].path != []
    ensures forall j': nat :: Lossy(legs, first, second, j', i) ==> j' == j
  {
    hide Combined;
    if NoSegments(legs[..i], j) {
      assert forall k :: j <= k < i ==> legs[k].path == legs[..i][k].path;
    }
  }

  lemma LossyEarlier(legs: seq<Leg>, first: seq<bool>, second: seq<bool>, j: nat, k: nat)
    requires Fit(legs, first, second) && k + 1 < |legs|
    ensures Lossy(legs, first, second, j, k) <==> Lossy(legs[..|legs| - 1], first, second, j, k)
  {
    hide Count, Combined;
    assert forall n :: 0 <= n <= k ==> legs[..|legs| - 1][n] == legs[n];
  }

  lemma LossyInside(legs: seq<Leg>, first: seq<bool>, second: seq<bool>, j: nat, k: nat)
    requires Fit(legs, first, second) && Lossy(legs, first, second, j, k)
    ensures k < |legs|
  {
    hide Count, Combined;
  }

  lemma {:induction false} LosslessMeans(legs: seq<Leg>, first: seq<bool>, second: seq<bool>)
    requires Fit(legs, first, second)
    ensures Lossless(legs, first, second) <==> forall j: nat, i: nat :: !Lossy(legs, first, second, j, i)
  {
    hide Lossy, Lossless, Harmless, Grouped, Count, Combined;
    if legs == [] {
      NothingToCollapse(first, second);
      forall j: nat, k: nat ensures !Lossy(legs, first, second, j, k) {
        if Lossy(legs, first, second, j, k) {
          LossyInside(legs, first, second, j, k);
        }
      }
    } else {
      var i := |legs| - 1;
      var before := legs[..i];
      LosslessMeans(before, first, second);
      LosslessStep(legs, first, second);
      LastStep(legs, first, second);
      forall j: nat, k: nat ensures Lossy(legs, first, second, j, k) ==> k == i || Lossy(before, first, second, j, k) {
        if Lossy(legs, first, second, j, k) {
          LossyInside(legs, first, second, j, k);
          if k < i {
            LossyEarlier(legs, first, second, j, k);
          }
        }
      }
      forall j: nat, k: nat ensures Lossy(before, first, second, j, k) ==> Lossy(legs, first, second, j, k) {
        if Lossy(before, first, second, j, k) {
          LossyInside(before, first, second, j, k);
          LossyEarlier(legs, first, second, j, k);
        }
      }
    }
  }

  /** Collapsing twice is collapsing once with the combined mask, except where an empty leg's source would count
      twice. */
  lemma CollapseTwice(legs: seq<Leg>, first: seq<bool>, second: seq<bool>)
    requires Fit(legs, first, second)
    ensures Twice(legs, first, second) == Once(legs, first, second)
            <==> forall j: nat, i: nat :: !Lossy(legs, first, second, j, i)
  {
    TwiceIsOnce(legs, first, second);
    LosslessMeans(legs, first, second);
  }

  /** The exception is real: an empty middle leg that starts a group counts its source once more when collapsed in
      two steps. */
  lemma CollapseTwiceCanDiffer() returns (legs: seq<Leg>, first: seq<bool>, second: seq<bool>)
    ensures |legs| == 3 && Fit(legs, first, second) && Twice(legs, first, second) != Once(legs, first, second)
  {
    var at := Phantom(1, 1, 1, 1, 0);
    var full, empty := Leg([PathData(5, 5, 0)], at, at, false, false), Leg([], at, at, false, false);
    legs, first, second := [full, empty, full], [true, true, false], [true, false];
    assert first[..2] == [true, true] && first[..1] == [true] && Count([true]) == 1 by {
      assert Count([true][..0]) == 0;
    }
    CountNext(first, 1);
    CountNext(first, 2);
    assert first[..3] == first;
    CombinedAt(first, second, 1);
    assert Lossy(legs, first, second, 1, 2);
    CollapseTwice(legs, first, second);
  }
}
