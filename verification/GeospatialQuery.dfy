/** Snapping a coordinate to road segments: which segments of the nearest-first stream are kept, when the search stops,
    and how the kept segments become candidates. */
module GeospatialQuery {
  import opened Options

  type Coordinate = (int, int)

  datatype Approach = Unrestricted | Curb | Opposite

  datatype EdgeData = EdgeData(forwardId: nat, forwardEnabled: bool, reverseId: nat, reverseEnabled: bool,
                               position: nat, isStartpoint: bool) {
    predicate BothEnabled() {
      forwardEnabled && reverseEnabled
    }
  }

  datatype Segment = Segment(coord: Coordinate, data: EdgeData)

  /** One direction flag each way. */
  datatype Directions = Directions(forward: bool, backward: bool) {
    function And(other: Directions): Directions {
      Directions(forward && other.forward, backward && other.backward)
    }

    predicate Any() {
      forward || backward
    }
  }

  /** The request, and what the data facade and the geometry answer about an edge. */
  datatype Query = Query(
    approach: Approach, maxDistance: Option<real>, useAllEdges: Option<bool>, hasBearing: bool,
    excluded: nat -> bool, isTiny: nat -> bool, leftHandDriving: nat -> bool,
    forwardWeightValid: EdgeData -> bool, reverseWeightValid: EdgeData -> bool,
    inputAtRight: EdgeData -> bool, bearing: EdgeData -> Directions, distance: Coordinate -> real)

  function CheckSegmentExclude(q: Query, e: EdgeData): Directions {
    Directions(!(e.forwardEnabled && q.excluded(e.forwardId)), !(e.reverseEnabled && q.excluded(e.reverseId)))
  }

  function CheckApproach(q: Query, e: EdgeData): Directions {
    if e.BothEnabled() && q.approach != Unrestricted then
      var right := q.inputAtRight(e);
      var right := if q.leftHandDriving(e.forwardId) then !right else right;
      var right := if q.approach == Opposite then !right else right;
      Directions(right, !right)
    else
      Directions(true, true)
  }

  function HasValidEdge(q: Query, e: EdgeData): Directions {
    var usable := e.isStartpoint || (q.useAllEdges.Some? && q.useAllEdges.value);
    Directions(q.forwardWeightValid(e) && e.forwardEnabled && usable, q.reverseWeightValid(e) && e.reverseEnabled
        && usable)
  }

  function CheckSegmentBearing(q: Query, e: EdgeData): Directions {
    if q.hasBearing then Directions(q.bearing(e).forward && e.forwardEnabled, q.bearing(e).backward && e.reverseEnabled)
    else Directions(true, true)
  }

  /** The directions of a segment that the request can use. */
  function Usable(q: Query, e: EdgeData): Directions {
    CheckSegmentExclude(q, e).And(CheckApproach(q, e)).And(HasValidEdge(q, e)).And(CheckSegmentBearing(q, e))
  }

  predicate Valid(q: Query, s: Segment) {
    Usable(q, s.data).Any()
  }

  predicate IsBig(q: Query, s: Segment) {
    !q.isTiny(s.data.forwardId)
  }

  /** The segment as the tree stores it in the results: directions that cannot be used are switched off. */
  function Masked(q: Query, s: Segment): Segment {
    var use := Usable(q, s.data);
    s.(data := s.data.(forwardEnabled := s.data.forwardEnabled && use.forward,
                       reverseEnabled := s.data.reverseEnabled && use.backward))
  }

  /** Whether the approach lets a two-way segment be used forward: the side that the input lies on is the curb's side
      when driving on the right, the other one when driving on the left, and reversed when the opposite curb is asked
      for. */
  predicate OnForwardSide(q: Query, e: EdgeData) {
    q.inputAtRight(e) == ((q.approach == Curb) == !q.leftHandDriving(e.forwardId))
  }

  /** What the results hold of an edge, field by field. */
  predicate KeptFrom(q: Query, e: EdgeData, r: EdgeData) {
    && r.forwardId == e.forwardId && r.reverseId == e.reverseId && r.position == e.position
    && r.isStartpoint == e.isStartpoint
    && (r.forwardEnabled <==>
          && e.forwardEnabled && q.forwardWeightValid(e) && (e.isStartpoint || q.useAllEdges == Some(true))
          && !q.excluded(e.forwardId) && (q.hasBearing ==> q.bearing(e).forward)
          && (e.reverseEnabled && q.approach != Unrestricted ==> OnForwardSide(q, e)))
    && (r.reverseEnabled <==>
          && e.reverseEnabled && q.reverseWeightValid(e) && (e.isStartpoint || q.useAllEdges == Some(true))
          && !q.excluded(e.reverseId) && (q.hasBearing ==> q.bearing(e).backward)
          && (e.forwardEnabled && q.approach != Unrestricted ==> !OnForwardSide(q, e)))
  }

  lemma MaskedIsKept(q: Query, s: Segment)
    ensures KeptFrom(q, s.data, Masked(q, s).data) && Masked(q, s).coord == s.coord
    ensures Valid(q, s) <==> Masked(q, s).data.forwardEnabled || Masked(q, s).data.reverseEnabled
  {
  }

  predicate TooFar(q: Query, s: Segment) {
    q.maxDistance.Some? && q.maxDistance.value != -1.0 && q.distance(s.coord) > q.maxDistance.value
  }

  /** What the filter has settled: the nearest location, and the location of the first big component. */
  datatype State = State(nearest: Option<Coordinate>, big: Option<Coordinate>)

  predicate Stops(q: Query, st: State, s: Segment) {
    (st.big.Some? && q.distance(s.coord) > q.distance(st.big.value)) || TooFar(q, s)
  }

  predicate Misplaced(q: Query, st: State, s: Segment) {
    (!IsBig(q, s) && st.nearest.Some? && s.coord != st.nearest.value)
        || (IsBig(q, s) && st.big.Some? && s.coord != st.big.value)
  }

  function Settle(q: Query, st: State, s: Segment): State {
    if Misplaced(q, st, s) || !Valid(q, s) then st
    else State(if st.nearest.Some? then st.nearest else Some(s.coord),
               if st.big.Some? || !IsBig(q, s) then st.big else Some(s.coord))
  }

  /** The search as a function of the stream: results and final state. */
  function Search(q: Query, st: State, stream: seq<Segment>): (r: (seq<Segment>, State))
    decreases |stream|
  {
    if stream == [] || Stops(q, st, stream[0]) then ([], st)
    else
      var s := stream[0];
      var rest := Search(q, Settle(q, st, s), stream[1..]);
      (if Misplaced(q, st, s) || !Valid(q, s) then rest.0 else [Masked(q, s)] + rest.0, rest.1)
  }

  lemma SearchStops(q: Query, st: State, stream: seq<Segment>, results: seq<Segment>)
    requires stream == [] || Stops(q, st, stream[0])
    ensures Search(q, st, stream).1 == st && results + Search(q, st, stream).0 == results
  {
  }

  lemma SearchGoesOn(q: Query, st: State, stream: seq<Segment>, results: seq<Segment>)
    requires stream != [] && !Stops(q, st, stream[0])
    ensures var s := stream[0];
            var whole, rest := Search(q, st, stream), Search(q, Settle(q, st, s), stream[1..]);
            && whole.1 == rest.1
            && results + whole.0 == (if Misplaced(q, st, s) || !Valid(q, s) then results else results + [Masked(q, s)])
                + rest.0
  {
    hide Stops, Misplaced, Valid, Masked, Settle;
  }

  /** A result is a segment of the stream, at its place, with the directions that may be used, of which there is one. */
  ghost predicate FromStream(q: Query, stream: seq<Segment>, r: Segment) {
    && (r.data.forwardEnabled || r.data.reverseEnabled)
    && exists s :: s in stream && r.coord == s.coord && KeptFrom(q, s.data, r.data)
  }

  lemma {:induction false} SearchKeeps(q: Query, st: State, stream: seq<Segment>)
    ensures forall r :: r in Search(q, st, stream).0 ==> FromStream(q, stream, r)
    decreases |stream|
  {
    hide KeptFrom, Masked, Misplaced, Valid, Stops, Settle;
    if stream != [] && !Stops(q, st, stream[0]) {
      var s, tail := stream[0], Search(q, Settle(q, st, stream[0]), stream[1..]).0;
      SearchKeeps(q, Settle(q, st, s), stream[1..]);
      MaskedIsKept(q, s);
      forall r | r in Search(q, st, stream).0 ensures FromStream(q, stream, r) {
        if r in tail {
          var t :| t in stream[1..] && r.coord == t.coord && KeptFrom(q, t.data, r.data);
          assert t in stream;
        } else {
          assert s in stream && r == Masked(q, s);
        }
      }
    }
  }

  const NOWHERE: State := State(None, None)

  /** The variables that the filter and the termination test of one search share. */
  class Snapping {
    var hasNearest: bool
    var hasBigComponent: bool
    var nearestCoord: Coordinate
    var bigComponentCoord: Coordinate
    var bigComponentDistance: real

    function Settled(): State
      reads this
    {
      State(if hasNearest then Some(nearestCoord) else None, if hasBigComponent then Some(bigComponentCoord) else None)
    }

    ghost predicate Consistent(q: Query)
      reads this
    {
      hasBigComponent ==> bigComponentDistance == q.distance(bigComponentCoord)
    }

    /** `big_component_distance` starts out as the largest double, which is never read before it is set. */
    constructor (largest: real, origin: Coordinate)
      ensures Settled() == NOWHERE && !hasBigComponent && nearestCoord == origin
    {
      hasNearest, hasBigComponent := false, false;
      nearestCoord, bigComponentCoord := origin, origin;
      bigComponentDistance := largest;
    }

    method Filter(q: Query, s: Segment) returns (use: Directions)
      requires Consistent(q)
      modifies this
      ensures Consistent(q) && Settled() == Settle(q, old(Settled()), s)
      ensures use == if Misplaced(q, old(Settled()), s) then Directions(false, false) else Usable(q, s.data)
      ensures old(hasNearest) ==> hasNearest && nearestCoord == old(nearestCoord)
      ensures use.Any() ==> hasNearest
      ensures !hasNearest ==> nearestCoord == old(nearestCoord)
    {
      var isBigComponent := !q.isTiny(s.data.forwardId);
      var notNearest := hasNearest && s.coord != nearestCoord;
      var notBig := hasBigComponent && s.coord != bigComponentCoord;
      if (!isBigComponent && notNearest) || (isBigComponent && notBig) {
        return Directions(false, false);
      }
      use := CheckSegmentExclude(q, s.data).And(CheckApproach(q, s.data));
      use := use.And(HasValidEdge(q, s.data)).And(CheckSegmentBearing(q, s.data));
      if use.forward || use.backward {
        if !hasNearest {
          hasNearest := true;
          nearestCoord := s.coord;
        }
        if isBigComponent && !hasBigComponent {
          hasBigComponent := true;
          bigComponentCoord := s.coord;
          bigComponentDistance := q.distance(s.coord);
        }
      }
    }

    method Terminate(q: Query, s: Segment) returns (stop: bool)
      requires Consistent(q)
      ensures stop == Stops(q, Settled(), s)
      ensures stop <==> (hasBigComponent && q.distance(s.coord) > q.distance(bigComponentCoord))
                        || (q.maxDistance.Some? && q.maxDistance.value != -1.0
                            && q.distance(s.coord) > q.maxDistance.value)
    {
      var distance := q.distance(s.coord);
      var noMoreCandidates := hasBigComponent && distance > bigComponentDistance;
      var tooFarAway := q.maxDistance.Some? && q.maxDistance.value != -1.0 && distance > q.maxDistance.value;
      stop := noMoreCandidates || tooFarAway;
    }

    /** The segment part of `StaticRTree::Nearest`: ask for termination first, then filter, then store. */
    method Nearest(q: Query, stream: seq<Segment>) returns (results: seq<Segment>)
      requires Settled() == NOWHERE && Consistent(q)
      modifies this
      ensures (results, Settled()) == Search(q, NOWHERE, stream)
      ensures results != [] ==> hasNearest
      ensures forall r :: r in results ==> FromStream(q, stream, r)
    {
      hide Misplaced, Usable, Stops, Search, Settle, FromStream;
      results := [];
      var i := 0;
      assert stream[0..] == stream && [] + Search(q, NOWHERE, stream).0 == Search(q, NOWHERE, stream).0;
      while i < |stream|
        invariant i <= |stream| && Consistent(q) && (results != [] ==> hasNearest)
        invariant var rest := Search(q, Settled(), stream[i..]);
                  (results + rest.0, rest.1) == Search(q, NOWHERE, stream)
      {
        var stop := Terminate(q, stream[i]);
        if stop {
          break;
        }
        assert stream[i..][0] == stream[i] && stream[i..][1..] == stream[i + 1..];
        SearchGoesOn(q, Settled(), stream[i..], results);
        var use := Filter(q, stream[i]);
        if use.forward || use.backward {
          var data := stream[i].data;
          var kept := stream[i].(data := data.(forwardEnabled := data.forwardEnabled && use.forward,
                                               reverseEnabled := data.reverseEnabled && use.backward));
          results := results + [kept];
        }
        i := i + 1;
      }
      SearchStops(q, Settled(), stream[i..], results);
      SearchKeeps(q, NOWHERE, stream);
    }
  }

  /** The part of the stream that the search looks at. */
  function Explored(q: Query, st: State, stream: seq<Segment>): (n: nat)
    ensures n <= |stream|
    decreases |stream|
  {
    if stream == [] || Stops(q, st, stream[0]) then 0 else 1 + Explored(q, Settle(q, st, stream[0]), stream[1..])
  }

  /** The coordinate of the first valid segment. */
  function FirstValid(q: Query, stream: seq<Segment>): Option<Coordinate> {
    if stream == [] then None else if Valid(q, stream[0]) then Some(stream[0].coord) else FirstValid(q, stream[1..])
  }

  /** The coordinate of the first valid segment in a big component. */
  function FirstBig(q: Query, stream: seq<Segment>): Option<Coordinate> {
    if stream == [] then None
    else if Valid(q, stream[0]) && IsBig(q, stream[0]) then Some(stream[0].coord)
    else FirstBig(q, stream[1..])
  }

  function Extend(q: Query, st: State, stream: seq<Segment>): State {
    State(if st.nearest.Some? then st.nearest else FirstValid(q, stream),
          if st.big.Some? then st.big else FirstBig(q, stream))
  }

  /** What a snap should keep, once the two locations are known: valid segments at the location of their kind. */
  predicate Wanted(q: Query, at: State, s: Segment) {
    Valid(q, s) && Some(s.coord) == if IsBig(q, s) then at.big else at.nearest
  }

  function Select(q: Query, at: State, stream: seq<Segment>): seq<Segment> {
    if stream == [] then []
    else (if Wanted(q, at, stream[0]) then [Masked(q, stream[0])] else []) + Select(q, at, stream[1..])
  }

  lemma SelectStep(q: Query, at: State, s: Segment, tail: seq<Segment>)
    ensures var rest := Select(q, at, tail);
            Select(q, at, [s] + tail) == if Wanted(q, at, s) then [Masked(q, s)] + rest else rest
  {
    assert ([s] + tail)[1..] == tail;
    assert [] + Select(q, at, tail) == Select(q, at, tail);
  }

  /** A big location is only ever settled together with a nearest one. */
  predicate Sane(st: State) {
    st.big.Some? ==> st.nearest.Some?
  }

  /** One segment at a time: the locations come out the same, and what the filter decides now is right at the end. */
  lemma SettleIsFirst(q: Query, st: State, s: Segment, tail: seq<Segment>)
    requires Sane(st)
    ensures Sane(Settle(q, st, s))
    ensures var at := Extend(q, st, [s] + tail);
            at == Extend(q, Settle(q, st, s), tail) && (Wanted(q, at, s) <==> Valid(q, s) && !Misplaced(q, st, s))
  {
    hide Valid, IsBig;
    assert ([s] + tail)[0] == s && ([s] + tail)[1..] == tail;
  }

  /** The filter, which decides on the fly, keeps exactly the wanted segments of the explored part. */
  lemma {:induction false} SearchSelects(q: Query, st: State, stream: seq<Segment>)
    requires Sane(st)
    ensures var seen := stream[..Explored(q, st, stream)];
            Search(q, st, stream) == (Select(q, Extend(q, st, seen), seen), Extend(q, st, seen))
    decreases |stream|
  {
    hide Valid, Masked, Wanted, Extend, Settle, Misplaced;
    var n := Explored(q, st, stream);
    if n > 0 {
      var s, tail := stream[0], stream[1..][..n - 1];
      SettleIsFirst(q, st, s, tail);
      SelectStep(q, Extend(q, st, [s] + tail), s, tail);
      SearchSelects(q, Settle(q, st, s), stream[1..]);
      assert stream[..n] == [s] + tail && stream[..n][1..] == tail;
    } else {
      ExtendNothing(q, st);
    }
  }

  lemma ExtendNothing(q: Query, st: State)
    ensures Extend(q, st, []) == st
  {
  }

  /** The stream comes nearest first. */
  predicate NearestFirst(q: Query, stream: seq<Segment>) {
    forall i, j :: 0 <= i < j < |stream| ==> q.distance(stream[i].coord) <= q.distance(stream[j].coord)
  }

  /** The segments within the maximal distance. */
  function Within(q: Query, stream: seq<Segment>): seq<Segment> {
    if stream == [] then [] else (if TooFar(q, stream[0]) then [] else [stream[0]]) + Within(q, stream[1..])
  }

  predicate Beyond(q: Query, stream: seq<Segment>, c: Option<Coordinate>) {
    c.Some? ==> forall s :: s in stream ==> q.distance(c.value) < q.distance(s.coord)
  }

  predicate NotBefore(q: Query, stream: seq<Segment>, c: Option<Coordinate>) {
    c.Some? ==> forall s :: s in stream ==> q.distance(c.value) <= q.distance(s.coord)
  }

  lemma {:induction false} NothingBeyond(q: Query, at: State, stream: seq<Segment>)
    requires Beyond(q, stream, at.nearest) && Beyond(q, stream, at.big)
    ensures Select(q, at, stream) == []
  {
    if stream != [] {
      NothingBeyond(q, at, stream[1..]);
      assert stream[0] in stream && forall s :: s in stream[1..] ==> s in stream;
    }
  }

  lemma {:induction false} WithinSubset(q: Query, stream: seq<Segment>)
    ensures forall s :: s in Within(q, stream) ==> s in stream && !TooFar(q, s)
  {
    if stream != [] {
      WithinSubset(q, stream[1..]);
    }
  }

  lemma {:induction false} NoneWithin(q: Query, stream: seq<Segment>)
    requires forall s :: s in stream ==> TooFar(q, s)
    ensures Within(q, stream) == []
  {
    if stream != [] {
      assert stream[0] in stream && forall s :: s in stream[1..] ==> s in stream;
      NoneWithin(q, stream[1..]);
    }
  }

  /** The search would stop in front of segment `i`, were it to get there. */
  predicate StopsAt(q: Query, st: State, stream: seq<Segment>, i: nat)
    requires i < |stream|
  {
    Stops(q, Extend(q, st, stream[..i]), stream[i])
  }

  /** A wanted segment within the maximal distance stands at or behind a place where the search stops. */
  ghost predicate CutsOff(q: Query, st: State, stream: seq<Segment>) {
    var at := Extend(q, st, Within(q, stream));
    exists i, j :: 0 <= i <= j < |stream| && StopsAt(q, st, stream, i) && !TooFar(q, stream[j])
                   && Wanted(q, at, stream[j])
  }

  lemma {:induction false} FirstValidConcat(q: Query, a: seq<Segment>, b: seq<Segment>)
    ensures FirstValid(q, a + b) == if FirstValid(q, a).Some? then FirstValid(q, a) else FirstValid(q, b)
  {
    if a == [] {
      assert a + b == b;
    } else {
      FirstValidConcat(q, a[1..], b);
      assert (a + b)[1..] == a[1..] + b;
    }
  }

  lemma {:induction false} FirstBigConcat(q: Query, a: seq<Segment>, b: seq<Segment>)
    ensures FirstBig(q, a + b) == if FirstBig(q, a).Some? then FirstBig(q, a) else FirstBig(q, b)
  {
    if a == [] {
      assert a + b == b;
    } else {
      FirstBigConcat(q, a[1..], b);
      assert (a + b)[1..] == a[1..] + b;
    }
  }

  lemma ExtendConcat(q: Query, st: State, a: seq<Segment>, b: seq<Segment>)
    ensures Extend(q, st, a + b) == Extend(q, Extend(q, st, a), b)
  {
    FirstValidConcat(q, a, b);
    FirstBigConcat(q, a, b);
  }

  lemma WithinNone(q: Query)
    ensures Within(q, []) == []
  {
  }

  lemma WithinStep(q: Query, s: Segment, tail: seq<Segment>)
    ensures Within(q, [s] + tail) == (if TooFar(q, s) then [] else [s]) + Within(q, tail)
  {
    hide TooFar;
    assert ([s] + tail)[1..] == tail;
  }

  lemma {:induction false} WithinConcat(q: Query, a: seq<Segment>, b: seq<Segment>)
    ensures Within(q, a + b) == Within(q, a) + Within(q, b)
  {
    hide Within, TooFar;
    if a == [] {
      WithinNone(q);
      assert a + b == b && [] + Within(q, b) == Within(q, b);
    } else {
      WithinConcat(q, a[1..], b);
      WithinStep(q, a[0], a[1..]);
      WithinStep(q, a[0], a[1..] + b);
      assert [a[0]] + a[1..] == a && [a[0]] + (a[1..] + b) == a + b;
    }
  }

  lemma SelectOfNone(q: Query, at: State)
    ensures Select(q, at, []) == []
  {
  }

  lemma {:induction false} SelectConcat(q: Query, at: State, a: seq<Segment>, b: seq<Segment>)
    ensures Select(q, at, a + b) == Select(q, at, a) + Select(q, at, b)
  {
    hide Wanted, Masked, Select;
    if a == [] {
      assert a + b == b;
      SelectOfNone(q, at);
    } else {
      SelectConcat(q, at, a[1..], b);
      SelectStep(q, at, a[0], a[1..]);
      SelectStep(q, at, a[0], a[1..] + b);
      assert [a[0]] + a[1..] == a && [a[0]] + (a[1..] + b) == a + b;
      assert ([Masked(q, a[0])] + Select(q, at, a[1..])) + Select(q, at, b)
             == [Masked(q, a[0])] + (Select(q, at, a[1..]) + Select(q, at, b));
    }
  }

  /** Everything explored is within the maximal distance. */
  lemma {:induction false} AllWithin(q: Query, stream: seq<Segment>)
    requires forall s :: s in stream ==> !TooFar(q, s)
    ensures Within(q, stream) == stream
  {
    if stream != [] {
      assert stream[0] in stream && forall s :: s in stream[1..] ==> s in stream;
      AllWithin(q, stream[1..]);
    }
  }

  predicate NoneWanted(q: Query, at: State, stream: seq<Segment>) {
    forall j :: 0 <= j < |stream| && !TooFar(q, stream[j]) ==> !Wanted(q, at, stream[j])
  }

  lemma NoneWantedStep(q: Query, at: State, stream: seq<Segment>)
    requires stream != []
    ensures NoneWanted(q, at, stream)
            <==> (TooFar(q, stream[0]) || !Wanted(q, at, stream[0])) && NoneWanted(q, at, stream[1..])
  {
    hide Wanted, TooFar;
    var tail := stream[1..];
    if NoneWanted(q, at, stream) {
      forall j | 0 <= j < |tail| && !TooFar(q, tail[j]) ensures !Wanted(q, at, tail[j]) {
        assert tail[j] == stream[j + 1];
      }
    }
    if !NoneWanted(q, at, stream) {
      var j :| 0 <= j < |stream| && !TooFar(q, stream[j]) && Wanted(q, at, stream[j]);
      assert j > 0 ==> stream[j] == tail[j - 1];
    }
  }

  /** Nothing is selected exactly when nothing is wanted. */
  lemma {:induction false} SelectNothing(q: Query, at: State, stream: seq<Segment>)
    ensures Select(q, at, Within(q, stream)) == [] <==> NoneWanted(q, at, stream)
  {
    hide Wanted, Masked, TooFar;
    if stream != [] {
      var s, tail := stream[0], stream[1..];
      SelectNothing(q, at, tail);
      NoneWantedStep(q, at, stream);
      SelectStep(q, at, s, Within(q, tail));
      assert [] + Within(q, tail) == Within(q, tail);
    }
  }

  /** The search ends at the first place where it stops. */
  lemma {:induction false} ExploredToStop(q: Query, st: State, stream: seq<Segment>)
    requires Sane(st)
    ensures var n := Explored(q, st, stream);
            (forall i: nat :: i < n ==> !StopsAt(q, st, stream, i)) && (n < |stream| ==> StopsAt(q, st, stream, n))
    decreases |stream|
  {
    hide Stops, Extend, Settle;
    ExtendNothing(q, st);
    if stream != [] && !Stops(q, st, stream[0]) {
      var s, tail := stream[0], stream[1..];
      SettleIsFirst(q, st, s, []);
      ExploredToStop(q, Settle(q, st, s), tail);
      forall i: nat | 0 < i < |stream|
          ensures StopsAt(q, st, stream, i) <==> StopsAt(q, Settle(q, st, s), tail, i - 1) {
        SettleIsFirst(q, st, s, tail[..i - 1]);
        assert stream[..i] == [s] + tail[..i - 1];
      }
    }
    assert stream[..0] == [];
  }

  lemma {:induction false} FirstsOf(q: Query, stream: seq<Segment>)
    ensures forall s :: s in stream && Valid(q, s)
                        ==> FirstValid(q, stream).Some? && (IsBig(q, s) ==> FirstBig(q, stream).Some?)
  {
    hide Valid, IsBig;
    if stream != [] {
      FirstsOf(q, stream[1..]);
      assert stream == [stream[0]] + stream[1..];
    }
  }

  lemma {:induction false} SelectAlike(q: Query, a: State, b: State, stream: seq<Segment>)
    requires forall s :: s in stream ==> (Wanted(q, a, s) <==> Wanted(q, b, s))
    ensures Select(q, a, stream) == Select(q, b, stream)
  {
    hide Wanted;
    if stream != [] {
      assert stream[0] in stream && forall s :: s in stream[1..] ==> s in stream;
      SelectAlike(q, a, b, stream[1..]);
    }
  }

  /** What comes behind does not change what is wanted of the segments seen so far. */
  lemma SeenIsSettled(q: Query, st: State, seen: seq<Segment>, more: seq<Segment>)
    ensures Select(q, Extend(q, Extend(q, st, seen), more), seen) == Select(q, Extend(q, st, seen), seen)
  {
    hide Select, Valid, IsBig;
    FirstsOf(q, seen);
    SelectAlike(q, Extend(q, Extend(q, st, seen), more), Extend(q, st, seen), seen);
  }

  /** The loss, seen from the first place where the search stops. */
  lemma CutsOffBehind(q: Query, st: State, stream: seq<Segment>, n: nat)
    requires n <= |stream| && (forall i: nat :: i < n ==> !StopsAt(q, st, stream, i))
             && (n < |stream| ==> StopsAt(q, st, stream, n))
    ensures var at, rest := Extend(q, st, Within(q, stream)), stream[n..];
            CutsOff(q, st, stream) <==> exists j :: 0 <= j < |rest| && !TooFar(q, rest[j]) && Wanted(q, at, rest[j])
  {
    hide Within, Extend, Wanted, TooFar, StopsAt;
    var at, rest := Extend(q, st, Within(q, stream)), stream[n..];
    if CutsOff(q, st, stream) {
      var i, j :| 0 <= i <= j < |stream| && StopsAt(q, st, stream, i) && !TooFar(q, stream[j])
          && Wanted(q, at, stream[j]);
      assert n <= j && stream[j] == rest[j - n];
    }
    if j :| 0 <= j < |rest| && !TooFar(q, rest[j]) && Wanted(q, at, rest[j]) {
      assert rest[j] == stream[n + j] && StopsAt(q, st, stream, n);
    }
  }

  /** The cutoff costs nothing exactly when no wanted segment within reach stands where the search has already
      stopped. */
  lemma CutoffExact(q: Query, st: State, stream: seq<Segment>)
    requires Sane(st)
    ensures var near := Within(q, stream);
            Search(q, st, stream).0 == Select(q, Extend(q, st, near), near) <==> !CutsOff(q, st, stream)
  {
    hide Select, Within, Extend, Wanted, TooFar, Search, CutsOff, StopsAt;
    var n := Explored(q, st, stream);
    var seen, rest := stream[..n], stream[n..];
    SearchSelects(q, st, stream);
    ExploredToStop(q, st, stream);
    ExploredNear(q, st, stream);
    CutsOffBehind(q, st, stream, n);
    assert stream == seen + rest;
    WithinConcat(q, seen, rest);
    var more := Within(q, rest);
    ExtendConcat(q, st, seen, more);
    SeenIsSettled(q, st, seen, more);
    var at := Extend(q, st, seen + more);
    SelectConcat(q, at, seen, more);
    SelectNothing(q, at, rest);
    SameWithMore(Select(q, at, seen), Select(q, at, more));
  }

  lemma SameWithMore<T>(a: seq<T>, b: seq<T>)
    ensures a == a + b <==> b == []
  {
  }

  lemma ExploredNear(q: Query, st: State, stream: seq<Segment>)
    requires var n := Explored(q, st, stream); forall i: nat :: i < n ==> !StopsAt(q, st, stream, i)
    ensures var seen := stream[..Explored(q, st, stream)]; Within(q, seen) == seen
  {
    hide TooFar, Extend, Within;
    var seen := stream[..Explored(q, st, stream)];
    forall s | s in seen ensures !TooFar(q, s) {
      var i :| 0 <= i < |seen| && seen[i] == s;
      assert !StopsAt(q, st, stream, i);
    }
    AllWithin(q, seen);
  }

  /** Nearest first, the cutoff costs nothing: the search keeps every wanted segment within the maximal distance. */
  lemma {:induction false} CutoffLosesNothing(q: Query, st: State, stream: seq<Segment>)
    requires Sane(st) && NearestFirst(q, stream) && NotBefore(q, stream, st.nearest)
    requires st.big.Some? ==> q.distance(st.nearest.value) <= q.distance(st.big.value)
    ensures var near := Within(q, stream);
            Search(q, st, stream) == (Select(q, Extend(q, st, near), near), Extend(q, st, near))
    decreases |stream|
  {
    hide Valid, Masked, Wanted, Extend, TooFar, Misplaced;
    if stream == [] {
      ExtendNothing(q, st);
    } else {
      var s := stream[0];
      Tail(q, stream);
      if Stops(q, st, s) {
        if TooFar(q, s) {
          AllTooFar(q, stream);
          ExtendNothing(q, st);
        } else {
          WithinSubset(q, stream);
          NothingBeyond(q, st, Within(q, stream));
          ExtendSettled(q, st, Within(q, stream));
        }
      } else {
        var tail := Within(q, stream[1..]);
        assert !TooFar(q, s) && Within(q, stream) == [s] + tail && ([s] + tail)[1..] == tail;
        SettleIsFirst(q, st, s, tail);
        SelectStep(q, Extend(q, st, [s] + tail), s, tail);
        SettleKeepsOrder(q, st, stream);
        CutoffLosesNothing(q, Settle(q, st, s), stream[1..]);
      }
    }
  }

  lemma Tail(q: Query, stream: seq<Segment>)
    requires stream != [] && NearestFirst(q, stream)
    ensures NearestFirst(q, stream[1..])
    ensures forall s :: s in stream ==> q.distance(stream[0].coord) <= q.distance(s.coord)
    ensures stream[0] in stream && forall s :: s in stream[1..] ==> s in stream
  {
  }

  lemma AllTooFar(q: Query, stream: seq<Segment>)
    requires stream != [] && NearestFirst(q, stream) && TooFar(q, stream[0])
    ensures Within(q, stream) == []
  {
    Tail(q, stream);
    NoneWithin(q, stream);
  }

  lemma ExtendSettled(q: Query, st: State, stream: seq<Segment>)
    requires st.nearest.Some? && st.big.Some?
    ensures Extend(q, st, stream) == st
  {
  }

  lemma SettleKeepsOrder(q: Query, st: State, stream: seq<Segment>)
    requires stream != [] && Sane(st) && NearestFirst(q, stream) && NotBefore(q, stream, st.nearest)
    requires st.big.Some? ==> q.distance(st.nearest.value) <= q.distance(st.big.value)
    ensures var st' := Settle(q, st, stream[0]);
            && NotBefore(q, stream[1..], st'.nearest)
            && (st'.big.Some? ==> st'.nearest.Some? && q.distance(st'.nearest.value) <= q.distance(st'.big.value))
  {
    hide Valid, Misplaced;
    Tail(q, stream);
  }

  /** Results stand where their kind belongs. */
  lemma {:induction false} SelectedPlaces(q: Query, at: State, stream: seq<Segment>)
    ensures forall r :: r in Select(q, at, stream) ==> Some(r.coord) == if IsBig(q, r) then at.big else at.nearest
  {
    if stream != [] {
      SelectedPlaces(q, at, stream[1..]);
    }
  }

  lemma {:induction false} FirstSelected(q: Query, stream: seq<Segment>)
    ensures var at := Extend(q, NOWHERE, stream);
            var r := Select(q, at, stream);
            && (at.nearest.Some? <==> r != [])
            && (r != [] ==> Some(r[0].coord) == at.nearest && (IsBig(q, r[0]) ==> at.big == at.nearest))
  {
    hide Valid;
    if stream != [] && !Valid(q, stream[0]) {
      FirstSelected(q, stream[1..]);
      assert Select(q, Extend(q, NOWHERE, stream), stream) == [] + Select(q, Extend(q, NOWHERE, stream), stream[1..]);
    }
  }

  /** Every result away from the nearest location is in a big component, and all of those share one location; when the
      first result is in a big component there are none. */
  lemma AlternativesAreBig(q: Query, stream: seq<Segment>)
    ensures var (r, at) := Search(q, NOWHERE, stream);
            && (r != [] ==> at.nearest == Some(r[0].coord))
            && (forall s :: s in r && Some(s.coord) != at.nearest
                           ==> !q.isTiny(s.data.forwardId) && at.big == Some(s.coord))
            && (r != [] && !q.isTiny(r[0].data.forwardId) ==> forall s :: s in r ==> s.coord == r[0].coord)
  {
    hide Select, Extend;
    SearchSelects(q, NOWHERE, stream);
    var seen := stream[..Explored(q, NOWHERE, stream)];
    FirstSelected(q, seen);
    SelectedPlaces(q, Extend(q, NOWHERE, seen), seen);
  }

  /** The locations are the first valid one and the first valid big one within reach, and nothing wanted is missed. */
  lemma NearestFirstIsComplete(q: Query, stream: seq<Segment>)
    requires NearestFirst(q, stream)
    ensures var near := Within(q, stream);
            var at := State(FirstValid(q, near), FirstBig(q, near));
            Search(q, NOWHERE, stream) == (Select(q, at, near), at)
  {
    CutoffLosesNothing(q, NOWHERE, stream);
  }

  /** Out of order it does cost something: the stream is sorted by projected distance, the cutoff measures on the
      sphere. */
  lemma CutoffCanLose() returns (q: Query, stream: seq<Segment>)
    ensures var near := Within(q, stream);
            |Search(q, NOWHERE, stream).0| < |Select(q, State(FirstValid(q, near), FirstBig(q, near)), near)|
  {
    var e := EdgeData(0, true, 1, true, 0, true);
    q := Query(Unrestricted, None, None, false, _ => false, _ => false, _ => false, _ => true, _ => true, _ => true,
               _ => Directions(true, true), (c: Coordinate) => c.0 as real);
    var a, b := Segment((1, 0), e), Segment((2, 0), e);
    stream := [a, b, a];
    var at := State(Some(a.coord), Some(a.coord));
    assert Within(q, [a]) == [a] && Within(q, [b, a]) == [b, a] by {
      assert [a][1..] == [] && [b, a][1..] == [a];
    }
    assert stream[1..] == [b, a] && Within(q, stream) == stream;
    SelectStep(q, at, a, []);
    SelectStep(q, at, b, [a]);
    SelectStep(q, at, a, [b, a]);
    assert [a] + [] == [a] && [b] + [a] == [b, a] && [a] + [b, a] == stream;
    StopsAtOnce(q, at, b, [a]);
    assert Search(q, NOWHERE, stream).0 == [Masked(q, a)];
  }

  lemma StopsAtOnce(q: Query, st: State, s: Segment, rest: seq<Segment>)
    requires Stops(q, st, s)
    ensures Search(q, st, [s] + rest) == ([], st)
  {
  }

  predicate SameSegment(a: EdgeData, b: EdgeData) {
    a.forwardId == b.forwardId && a.reverseId == b.reverseId
  }

  /** A candidate phantom node is determined by the input coordinate and the edge it is made from. */
  function Find(candidates: seq<EdgeData>, data: EdgeData): (i: nat)
    ensures i <= |candidates| && (forall k :: 0 <= k < i ==> !SameSegment(data, candidates[k]))
    ensures i < |candidates| ==> SameSegment(data, candidates[i])
  {
    if candidates == [] || SameSegment(data, candidates[0]) then 0 else 1 + Find(candidates[1..], data)
  }

  predicate Replaces(data: EdgeData, candidate: EdgeData) {
    if candidate.position < data.position then data.BothEnabled() && !candidate.BothEnabled()
    else !candidate.forwardEnabled || !candidate.reverseEnabled || data.BothEnabled()
  }

  function Added(candidates: seq<EdgeData>, data: EdgeData): seq<EdgeData> {
    var i := Find(candidates, data);
    if i == |candidates| then candidates + [data]
    else if Replaces(data, candidates[i]) then candidates[i := data]
    else candidates
  }

  function Candidates(results: seq<EdgeData>): seq<EdgeData> {
    if results == [] then [] else Added(Candidates(results[..|results| - 1]), results[|results| - 1])
  }

  /** `add_to_candidates`. */
  method AddToCandidates(candidates: seq<EdgeData>, data: EdgeData) returns (updated: seq<EdgeData>)
    ensures updated == Added(candidates, data)
  {
    var i := 0;
    while i < |candidates| && !SameSegment(data, candidates[i])
      invariant i <= |candidates| && forall k :: 0 <= k < i ==> !SameSegment(data, candidates[k])
    {
      i := i + 1;
    }
    updated := candidates;
    if i == |candidates| {
      updated := candidates + [data];
    } else if candidates[i].position < data.position {
      if data.forwardEnabled && data.reverseEnabled && !(candidates[i].forwardEnabled && candidates[i].reverseEnabled) {
        updated := candidates[i := data];
      }
    } else {
      if !candidates[i].forwardEnabled || !candidates[i].reverseEnabled
          || (data.forwardEnabled && data.reverseEnabled) {
        updated := candidates[i := data];
      }
    }
  }

  /** The results at a location, or away from it. */
  function Part(results: seq<Segment>, coord: Coordinate, at: bool): seq<EdgeData> {
    if results == [] then []
    else
      var n := |results| - 1;
      Part(results[..n], coord, at) + if (results[n].coord == coord) == at then [results[n].data] else []
  }

  /** `MakeAlternativeBigCandidates`. */
  method MakeAlternativeBigCandidates(results: seq<Segment>, nearestCoord: Coordinate)
    returns (nearest: seq<EdgeData>, big: seq<EdgeData>)
    ensures nearest == Candidates(Part(results, nearestCoord, true))
            && big == Candidates(Part(results, nearestCoord, false))
  {
    nearest, big := [], [];
    var i := 0;
    while i < |results|
      invariant i <= |results| && nearest == Candidates(Part(results[..i], nearestCoord, true))
      invariant big == Candidates(Part(results[..i], nearestCoord, false))
    {
      PartStep(results, i, nearestCoord);
      if results[i].coord == nearestCoord {
        nearest := AddToCandidates(nearest, results[i].data);
      } else {
        big := AddToCandidates(big, results[i].data);
      }
      i := i + 1;
    }
    assert results[..i] == results;
  }

  lemma PartStep(results: seq<Segment>, i: nat, coord: Coordinate)
    requires i < |results|
    ensures var here := results[i].coord == coord;
            && Candidates(Part(results[..i + 1], coord, here))
                == Added(Candidates(Part(results[..i], coord, here)), results[i].data)
            && Part(results[..i + 1], coord, !here) == Part(results[..i], coord, !here)
  {
    var here := results[i].coord == coord;
    var before := Part(results[..i], coord, here);
    assert results[..i + 1][..i] == results[..i];
    assert (before + [results[i].data])[..|before|] == before;
    assert Part(results[..i], coord, !here) + [] == Part(results[..i], coord, !here);
  }

  lemma {:induction false} PartMembers(results: seq<Segment>, coord: Coordinate, at: bool)
    ensures forall e :: e in Part(results, coord, at)
                        ==> exists r :: r in results && r.data == e && (r.coord == coord <==> at)
  {
    if results != [] {
      var n := |results| - 1;
      PartMembers(results[..n], coord, at);
      forall e | e in Part(results, coord, at)
          ensures exists r :: r in results && r.data == e && (r.coord == coord <==> at) {
        if e in Part(results[..n], coord, at) {
          var r :| r in results[..n] && r.data == e && (r.coord == coord <==> at);
          assert r in results;
        } else {
          assert results[n] in results;
        }
      }
    }
  }

  /** Candidates are kept edges of the stream; those of the first list stand at `place`, those of the second
      elsewhere and in big components. */
  ghost predicate CandidatesFrom(q: Query, stream: seq<Segment>, place: Coordinate, nearest: seq<EdgeData>,
          big: seq<EdgeData>) {
    && (forall c :: c in nearest ==>
          (c.forwardEnabled || c.reverseEnabled)
          && exists s :: s in stream && s.coord == place && KeptFrom(q, s.data, c))
    && (forall c :: c in big ==>
          (c.forwardEnabled || c.reverseEnabled)
          && exists s :: s in stream && s.coord != place && KeptFrom(q, s.data, c) && !q.isTiny(s.data.forwardId))
  }

  lemma ResultsGiveCandidates(q: Query, stream: seq<Segment>)
    requires Search(q, NOWHERE, stream).0 != []
    ensures var r := Search(q, NOWHERE, stream).0;
            var place := r[0].coord;
            CandidatesFrom(q, stream, place, Candidates(Part(r, place, true)), Candidates(Part(r, place, false)))
  {
    hide Search, KeptFrom, Part, Candidates;
    var r := Search(q, NOWHERE, stream).0;
    var place := r[0].coord;
    SearchKeeps(q, NOWHERE, stream);
    AlternativesAreBig(q, stream);
    PartCandidates(r, place, true);
    PartCandidates(r, place, false);
    forall c | c in Candidates(Part(r, place, false)) ensures c.forwardEnabled || c.reverseEnabled
      ensures exists s :: s in stream && s.coord != place && KeptFrom(q, s.data, c) && !q.isTiny(s.data.forwardId)
    {
      var x :| x in r && x.data == c && x.coord != place;
      assert FromStream(q, stream, x);
      var s :| s in stream && x.coord == s.coord && KeptFrom(q, s.data, x.data);
      KeptIds(q, s.data, x.data);
    }
    forall c | c in Candidates(Part(r, place, true)) ensures c.forwardEnabled || c.reverseEnabled
      ensures exists s :: s in stream && s.coord == place && KeptFrom(q, s.data, c)
    {
      var x :| x in r && x.data == c && x.coord == place;
      assert FromStream(q, stream, x);
    }
  }

  lemma KeptIds(q: Query, e: EdgeData, r: EdgeData)
    requires KeptFrom(q, e, r)
    ensures r.forwardId == e.forwardId
  {
  }

  lemma PartCandidates(results: seq<Segment>, coord: Coordinate, at: bool)
    ensures forall c :: c in Candidates(Part(results, coord, at))
                        ==> exists r :: r in results && r.data == c && (r.coord == coord <==> at)
  {
    hide Part, Candidates, Dominates;
    PartMembers(results, coord, at);
    CandidatesAreBest(Part(results, coord, at));
  }

  /** `NearestCandidatesWithAlternativeFromBigComponent`. */
  method NearestCandidates(q: Query, stream: seq<Segment>, largest: real, origin: Coordinate)
    returns (nearest: seq<EdgeData>, big: seq<EdgeData>)
    ensures var (r, at) := Search(q, NOWHERE, stream);
            if r == [] then nearest == [] && big == []
            else nearest == Candidates(Part(r, r[0].coord, true)) && big == Candidates(Part(r, r[0].coord, false))
    ensures var r := Search(q, NOWHERE, stream).0;
            r != [] && !q.isTiny(r[0].data.forwardId) ==> big == []
    ensures exists place :: CandidatesFrom(q, stream, place, nearest, big)
  {
    hide Search, CandidatesFrom, Candidates, Part;
    var snapping := new Snapping(largest, origin);
    var results := snapping.Nearest(q, stream);
    AlternativesAreBig(q, stream);
    if |results| == 0 {
      NoCandidates(q, stream, origin);
      return [], [];
    }
    ResultsGiveCandidates(q, stream);
    nearest, big := MakeAlternativeBigCandidates(results, snapping.nearestCoord);
    assert CandidatesFrom(q, stream, results[0].coord, nearest, big);
    if IsBig(q, results[0]) {
      NoneElsewhere(results, results[0].coord);
      NoneFolded();
    }
  }

  lemma NoCandidates(q: Query, stream: seq<Segment>, place: Coordinate)
    ensures CandidatesFrom(q, stream, place, [], [])
  {
  }

  lemma NoneFolded()
    ensures Candidates([]) == []
  {
  }

  lemma {:induction false} NoneElsewhere(results: seq<Segment>, coord: Coordinate)
    requires forall s :: s in results ==> s.coord == coord
    ensures Part(results, coord, false) == []
  {
    if results != [] {
      NoneElsewhere(results[..|results| - 1], coord);
    }
  }

  /** The order of preference among the edges of one segment: both directions enabled first, then the lower position. */
  predicate Preferred(a: EdgeData, b: EdgeData) {
    var both, otherBoth := a.forwardEnabled && a.reverseEnabled, b.forwardEnabled && b.reverseEnabled;
    (both && !otherBoth) || (both == otherBoth && a.position <= b.position)
  }

  predicate OnePerSegment(out: seq<EdgeData>) {
    forall i, j :: 0 <= i < j < |out| ==> out[i].forwardId != out[j].forwardId || out[i].reverseId != out[j].reverseId
  }

  predicate Dominates(c: EdgeData, results: seq<EdgeData>) {
    forall d :: d in results && d.forwardId == c.forwardId && d.reverseId == c.reverseId ==> Preferred(c, d)
  }

  predicate Represented(d: EdgeData, out: seq<EdgeData>) {
    exists k :: 0 <= k < |out| && out[k].forwardId == d.forwardId && out[k].reverseId == d.reverseId
  }

  /** What folding should give: one candidate for every segment among the results, and that one is preferred to all
      others. */
  ghost predicate BestOf(results: seq<EdgeData>, out: seq<EdgeData>) {
    && OnePerSegment(out)
    && (forall k :: 0 <= k < |out| ==> out[k] in results && Dominates(out[k], results))
    && (forall d :: d in results ==> Represented(d, out))
  }

  lemma Representative(d: EdgeData, out: seq<EdgeData>) returns (k: nat)
    requires Represented(d, out)
    ensures k < |out| && SameSegment(out[k], d)
  {
    k :| 0 <= k < |out| && out[k].forwardId == d.forwardId && out[k].reverseId == d.reverseId;
  }

  lemma Dominated(c: EdgeData, results: seq<EdgeData>, d: EdgeData)
    requires Dominates(c, results) && d in results && SameSegment(c, d)
    ensures Preferred(c, d)
  {
  }

  lemma Different(out: seq<EdgeData>, i: nat, k: nat)
    requires OnePerSegment(out) && i < |out| && k < |out| && i != k
    ensures !SameSegment(out[i], out[k])
  {
  }

  lemma ReplacesIsPreference(data: EdgeData, candidate: EdgeData)
    ensures Replaces(data, candidate) <==> Preferred(data, candidate)
  {
  }

  /** The candidate at the place that `data` goes to. */
  lemma AddedAt(results: seq<EdgeData>, out: seq<EdgeData>, data: EdgeData)
    requires BestOf(results, out)
    ensures var i, now := Find(out, data), Added(out, data);
            && |now| == (if i == |out| then i + 1 else |out|)
            && (forall k :: 0 <= k < |now| && k != i ==> now[k] == out[k])
            && SameSegment(now[i], data) && now[i] in results + [data] && Dominates(now[i], results + [data])
  {
    hide Preferred, Replaces, Represented, OnePerSegment;
    var i, now := Find(out, data), Added(out, data);
    PreferenceOrder();
    if i < |out| {
      ReplacesIsPreference(data, out[i]);
      assert Dominates(out[i], results);
    } else {
      forall d | d in results ensures !SameSegment(data, d) {
        var k := Representative(d, out);
      }
    }
  }

  lemma OthersKeepDominating(results: seq<EdgeData>, out: seq<EdgeData>, data: EdgeData, k: nat)
    requires BestOf(results, out) && k < |out| && k != Find(out, data)
    ensures !SameSegment(out[k], data) && Dominates(out[k], results + [data])
  {
    hide Preferred, Represented, OnePerSegment;
    var i := Find(out, data);
    assert Dominates(out[k], results);
    if i < k {
      Different(out, i, k);
    }
  }

  lemma AddedStaysBest(results: seq<EdgeData>, out: seq<EdgeData>, data: EdgeData)
    requires BestOf(results, out)
    ensures BestOf(results + [data], Added(out, data))
  {
    hide Preferred, Replaces, Added, Dominates, Represented, OnePerSegment;
    var i, all, now := Find(out, data), results + [data], Added(out, data);
    AddedAt(results, out, data);
    forall k | 0 <= k < |now| ensures now[k] in all && Dominates(now[k], all)
        && (k != i ==> !SameSegment(now[k], now[i])) {
      if k != i {
        OthersKeepDominating(results, out, data, k);
      }
    }
    forall d | d in all ensures Represented(d, now) {
      if d in results && !SameSegment(data, d) {
        var k := Representative(d, out);
        IsRepresented(d, now, k);
      } else {
        IsRepresented(d, now, i);
      }
    }
    StillOnePerSegment(out, now, i);
  }

  lemma IsRepresented(d: EdgeData, out: seq<EdgeData>, k: nat)
    requires k < |out| && SameSegment(out[k], d)
    ensures Represented(d, out)
  {
  }

  lemma StillOnePerSegment(out: seq<EdgeData>, now: seq<EdgeData>, i: nat)
    requires OnePerSegment(out) && i < |now| && forall k :: 0 <= k < |now| && k != i ==> k < |out| && now[k] == out[k]
    requires forall k :: 0 <= k < |now| && k != i ==> !SameSegment(now[k], now[i])
    ensures OnePerSegment(now)
  {
  }

  lemma PreferenceOrder()
    ensures forall a :: Preferred(a, a)
    ensures forall a, b :: Preferred(a, b) || Preferred(b, a)
    ensures forall a, b, c :: Preferred(a, b) && Preferred(b, c) ==> Preferred(a, c)
  {
  }

  lemma {:induction false} CandidatesAreBest(results: seq<EdgeData>)
    ensures BestOf(results, Candidates(results))
  {
    if results != [] {
      var n := |results| - 1;
      CandidatesAreBest(results[..n]);
      AddedStaysBest(results[..n], Candidates(results[..n]), results[n]);
      assert results[..n] + [results[n]] == results;
    }
  }

  /** No two different edges of one segment have the same position. */
  ghost predicate DistinctPositions(results: seq<EdgeData>) {
    forall a, b :: a in results && b in results && a.forwardId == b.forwardId && a.reverseId == b.reverseId
                   ==> a.position != b.position || a == b
  }

  lemma BestIsUnique(results: seq<EdgeData>, other: seq<EdgeData>, out: seq<EdgeData>, out': seq<EdgeData>, k: nat)
    requires BestOf(results, out) && BestOf(other, out') && DistinctPositions(results) && k < |out|
    requires forall e :: e in results <==> e in other
    ensures out[k] in out'
  {
    hide Represented, OnePerSegment, Dominates;
    var e := out[k];
    assert e in results;
    var n := Representative(e, out');
    assert out'[n] in other;
    Dominated(e, results, out'[n]);
    Dominated(out'[n], other, e);
  }

  lemma BestSame(results: seq<EdgeData>, other: seq<EdgeData>, out: seq<EdgeData>, out': seq<EdgeData>)
    requires BestOf(results, out) && BestOf(other, out') && DistinctPositions(results)
    requires forall e :: e in results <==> e in other
    ensures forall e :: e in out ==> e in out'
    ensures OnePerSegment(out)
  {
    hide Represented, OnePerSegment, Dominates, DistinctPositions;
    forall k | 0 <= k < |out| ensures out[k] in out' {
      BestIsUnique(results, other, out, out', k);
    }
  }

  lemma {:induction false} NoRepeats(out: seq<EdgeData>, e: EdgeData)
    requires OnePerSegment(out)
    ensures multiset(out)[e] == if e in out then 1 else 0
  {
    if out != [] {
      var n := |out| - 1;
      NoRepeats(out[..n], e);
      assert out == out[..n] + [out[n]];
    }
  }

  /** Selection does not depend on the order in which the results arrive. */
  lemma OrderIndependent(results: seq<EdgeData>, other: seq<EdgeData>)
    requires multiset(results) == multiset(other) && DistinctPositions(results)
    ensures multiset(Candidates(results)) == multiset(Candidates(other))
  {
    hide BestOf, OnePerSegment, Candidates;
    var out, out' := Candidates(results), Candidates(other);
    forall e ensures e in results <==> e in other {
      assert e in multiset(results) <==> e in multiset(other);
    }
    CandidatesAreBest(results);
    CandidatesAreBest(other);
    BestSame(results, other, out, out');
    BestSame(other, results, out', out);
    forall e ensures multiset(out)[e] == multiset(out')[e] {
      NoRepeats(out, e);
      NoRepeats(out', e);
    }
  }

  /** The truth table for two edges of one segment: the later edge is chosen only when it alone has both directions. */
  lemma TruthTable(e1: EdgeData, e2: EdgeData)
    requires e1.forwardId == e2.forwardId && e1.reverseId == e2.reverseId && e1.position < e2.position
    ensures Candidates([e1, e2]) == Candidates([e2, e1])
            == [if e2.forwardEnabled && e2.reverseEnabled && !(e1.forwardEnabled && e1.reverseEnabled) then e2 else e1]
  {
    CandidatesOfTwo(e1, e2);
    CandidatesOfTwo(e2, e1);
  }

  lemma CandidatesOfTwo(a: EdgeData, b: EdgeData)
    requires SameSegment(a, b)
    ensures Candidates([a, b]) == [if Replaces(b, a) then b else a]
  {
    assert [a, b][..1] == [a] && [a][..0] == [];
    assert Candidates([a]) == Added([], a) == [a];
    assert Candidates([a, b]) == Added([a], b);
  }
}
