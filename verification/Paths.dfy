/** Shortest paths in a directed multigraph whose arcs carry the lexicographic cost
    (weight, duration, distance) that the routing engine compares with `std::tie`. */
module Paths {
  import opened Options

  type NodeID = nat

  datatype Cost = Cost(weight: int, duration: int, distance: real)

  const ZERO := Cost(0, 0, 0.0)

  function Add(a: Cost, b: Cost): Cost {
    Cost(a.weight + b.weight, a.duration + b.duration, a.distance + b.distance)
  }

  predicate Less(a: Cost, b: Cost) {
    || a.weight < b.weight
    || (a.weight == b.weight && a.duration < b.duration)
    || (a.weight == b.weight && a.duration == b.duration && a.distance < b.distance)
  }

  predicate AtMost(a: Cost, b: Cost) {
    !Less(b, a)
  }

  datatype Arc = Arc(from: NodeID, to: NodeID, cost: Cost)

  type Arcs = iset<Arc>

  ghost predicate IsPath(arcs: Arcs, s: NodeID, p: seq<Arc>, t: NodeID)
    decreases p
  {
    if p == [] then s == t
    else p[0] in arcs && p[0].from == s && IsPath(arcs, p[0].to, p[1..], t)
  }

  function PathCost(p: seq<Arc>): Cost {
    if p == [] then ZERO else Add(p[0].cost, PathCost(p[1..]))
  }

  /** `d` is the least cost of a path from `s` to `t`, or None when there is no path. */
  ghost predicate IsDistance(arcs: Arcs, s: NodeID, t: NodeID, d: Option<Cost>) {
    match d
    case None => forall p :: !IsPath(arcs, s, p, t)
    case Some(c) =>
      && (exists p :: IsPath(arcs, s, p, t) && PathCost(p) == c)
      && (forall p :: IsPath(arcs, s, p, t) ==> AtMost(c, PathCost(p)))
  }

  /** Every arc that changes the node has a positive weight; a loop at a node costs nothing or more. */
  ghost predicate Positive(arcs: Arcs) {
    forall a :: a in arcs ==>
      if a.from == a.to then 0 <= a.cost.weight && AtMost(ZERO, a.cost) else 0 < a.cost.weight
  }

  lemma {:induction false} PathConcat(arcs: Arcs, s: NodeID, p: seq<Arc>, m: NodeID, q: seq<Arc>, t: NodeID)
    requires IsPath(arcs, s, p, m) && IsPath(arcs, m, q, t)
    ensures IsPath(arcs, s, p + q, t)
    ensures PathCost(p + q) == Add(PathCost(p), PathCost(q))
    decreases p
  {
    if p == [] {
      assert p + q == q;
    } else {
      PathConcat(arcs, p[0].to, p[1..], m, q, t);
      assert (p + q)[1..] == p[1..] + q;
    }
  }

  lemma PathSnoc(arcs: Arcs, s: NodeID, p: seq<Arc>, a: Arc)
    requires IsPath(arcs, s, p, a.from) && a in arcs
    ensures IsPath(arcs, s, p + [a], a.to)
    ensures PathCost(p + [a]) == Add(PathCost(p), a.cost)
  {
    assert [a][1..] == [];
    assert IsPath(arcs, a.to, [], a.to);
    assert IsPath(arcs, a.from, [a], a.to);
    assert PathCost([a]) == Add(a.cost, PathCost([]));
    PathConcat(arcs, s, p, a.from, [a], a.to);
  }

  lemma {:induction false} PathMono(small: Arcs, large: Arcs, s: NodeID, p: seq<Arc>, t: NodeID)
    requires small <= large && IsPath(small, s, p, t)
    ensures IsPath(large, s, p, t)
    decreases p
  {
    if p != [] {
      PathMono(small, large, p[0].to, p[1..], t);
    }
  }

  lemma {:induction false} PathWeight(arcs: Arcs, s: NodeID, p: seq<Arc>, t: NodeID)
    requires Positive(arcs) && IsPath(arcs, s, p, t)
    ensures 0 <= PathCost(p).weight
    ensures s != t ==> 0 < PathCost(p).weight
    decreases p
  {
    if p != [] {
      PathWeight(arcs, p[0].to, p[1..], t);
    }
  }

  lemma {:induction false} ClosedWalkCost(arcs: Arcs, s: NodeID, p: seq<Arc>)
    requires Positive(arcs) && IsPath(arcs, s, p, s)
    ensures AtMost(ZERO, PathCost(p))
    decreases p
  {
    if p != [] {
      if p[0].to == s {
        ClosedWalkCost(arcs, s, p[1..]);
      } else {
        PathWeight(arcs, p[0].to, p[1..], s);
      }
    }
  }

  lemma DistanceUnique(arcs: Arcs, s: NodeID, t: NodeID, d: Option<Cost>, e: Option<Cost>)
    requires IsDistance(arcs, s, t, d) && IsDistance(arcs, s, t, e)
    ensures d == e
  {
    if d.Some? && e.Some? {
      assert AtMost(d.value, e.value) && AtMost(e.value, d.value);
    }
  }

  ghost predicate Connected(arcs: Arcs, s: NodeID, t: NodeID) {
    exists p :: IsPath(arcs, s, p, t)
  }

  lemma DistanceOfConnected(arcs: Arcs, s: NodeID, t: NodeID, d: Option<Cost>)
    requires IsDistance(arcs, s, t, d)
    ensures d.Some? <==> Connected(arcs, s, t)
  {
    if d.Some? {
      var p :| IsPath(arcs, s, p, t) && PathCost(p) == d.value;
    }
  }

  ghost predicate Leaves(a: Arc) {
    a.from != a.to
  }

  /** Every arc of `worse` that changes the node has an arc of `better` over the same ends that costs no more. */
  ghost predicate Covers(better: Arcs, worse: Arcs) {
    forall a {:trigger Leaves(a)} :: a in worse && Leaves(a) ==>
      exists b :: b in better && b.from == a.from && b.to == a.to && AtMost(b.cost, a.cost)
  }

  lemma {:induction false} CoveredPath(better: Arcs, worse: Arcs, s: NodeID, p: seq<Arc>, t: NodeID)
    returns (q: seq<Arc>)
    requires Covers(better, worse) && Positive(worse) && IsPath(worse, s, p, t)
    ensures IsPath(better, s, q, t) && AtMost(PathCost(q), PathCost(p))
    decreases p
  {
    if p == [] {
      return [];
    }
    var a := p[0];
    q := CoveredPath(better, worse, a.to, p[1..], t);
    if Leaves(a) {
      var b :| b in better && b.from == a.from && b.to == a.to && AtMost(b.cost, a.cost);
      q := [b] + q;
    }
  }

  lemma CoveredDistance(one: Arcs, other: Arcs, s: NodeID, t: NodeID, d: Option<Cost>)
    requires Covers(one, other) && Covers(other, one) && Positive(one) && Positive(other)
    requires IsDistance(one, s, t, d)
    ensures IsDistance(other, s, t, d)
  {
    match d
    case None =>
      forall p ensures !IsPath(other, s, p, t) {
        if IsPath(other, s, p, t) {
          var q := CoveredPath(one, other, s, p, t);
        }
      }
    case Some(c) =>
      forall p | IsPath(other, s, p, t) ensures AtMost(c, PathCost(p)) {
        var q := CoveredPath(one, other, s, p, t);
      }
      var p :| IsPath(one, s, p, t) && PathCost(p) == c;
      var q := CoveredPath(other, one, s, p, t);
  }
}
