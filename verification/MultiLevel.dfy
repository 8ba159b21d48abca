/** The static structures of the customization: the base graph, the nested partition, the boundary nodes of
    each cell, and the overlay graph that a cell's search runs on. */
module MultiLevel {
  import opened Options
  import opened Paths
  import opened CliqueSearch

  type LevelID = nat
  type CellID = nat

  datatype GraphEdge = GraphEdge(target: NodeID, weight: int, duration: int, distance: real, forward: bool,
          backward: bool)

  function EdgeArc(u: NodeID, e: GraphEdge): Arc {
    Arc(u, e.target, Cost(e.weight, e.duration, e.distance))
  }

  /** One cell of the cell storage: its boundary nodes and where its source x destination table starts. */
  datatype CellData = CellData(valueOffset: nat, sources: seq<NodeID>, destinations: seq<NodeID>) {
    function ValueEnd(): nat {
      valueOffset + |sources| * |destinations|
    }

    function Position(row: nat, column: nat): nat {
      valueOffset + |destinations| * row + column
    }

    /** The row and column of a position within the table. */
    lemma EntryAt(pos: nat) returns (row: nat, column: nat)
      requires valueOffset <= pos < ValueEnd()
      ensures row < |sources| && column < |destinations| && Position(row, column) == pos
    {
      var k, n := pos - valueOffset, |destinations|;
      assert 0 < n;
      row, column := k / n, k % n;
      assert k == n * row + column;
      assert |sources| <= row ==> n * |sources| <= n * row;
    }

    lemma RowsIncrease(row: nat, column: nat, row': nat, column': nat)
      requires column < |destinations| && row < row'
      ensures Position(row, column) < Position(row', column')
    {
      assert |destinations| * row + |destinations| == |destinations| * (row + 1) <= |destinations| * row';
    }

    lemma PositionInjective(row: nat, column: nat, row': nat, column': nat)
      requires column < |destinations| && column' < |destinations| && (row, column) != (row', column')
      ensures Position(row, column) != Position(row', column')
    {
      if row < row' {
        RowsIncrease(row, column, row', column');
      } else if row' < row {
        RowsIncrease(row', column', row, column);
      }
    }
  }

  /** `internalEnd(level, u)` is where the border edges of `u` start, so the edges before it stay inside the
      level cell of `u`; `cell` is the partition and `storage` the cells of each level. */
  datatype Network = Network(
    adjacent: seq<seq<GraphEdge>>,
    internalEnd: (LevelID, NodeID) -> nat,
    levels: nat,
    numberOfCells: LevelID -> nat,
    cell: (LevelID, NodeID) -> CellID,
    storage: (LevelID, CellID) -> CellData)
  {
    ghost predicate IsBoundary(level: LevelID, u: NodeID)
      requires u < |adjacent|
    {
      exists i :: 0 <= i < |adjacent[u]| && cell(level, adjacent[u][i].target) != cell(level, u)
    }

    ghost predicate StartsInside(level: LevelID, u: NodeID)
      requires u < |adjacent|
    {
      exists i :: 0 <= i < |adjacent[u]| && cell(level, adjacent[u][i].target) == cell(level, u)
                  && adjacent[u][i].forward
    }

    ghost predicate EndsInside(level: LevelID, u: NodeID)
      requires u < |adjacent|
    {
      exists i :: 0 <= i < |adjacent[u]| && cell(level, adjacent[u][i].target) == cell(level, u)
                  && adjacent[u][i].backward
    }

    ghost predicate IsSource(level: LevelID, u: NodeID)
      requires u < |adjacent|
    {
      IsBoundary(level, u) && StartsInside(level, u)
    }

    /** An unconnected boundary node is kept as a destination, giving an empty column. */
    ghost predicate IsDestination(level: LevelID, u: NodeID)
      requires u < |adjacent|
    {
      IsBoundary(level, u) && (EndsInside(level, u) || !StartsInside(level, u))
    }

    /** Each edge is stored at both ends with its direction flags exchanged, and weights are positive. */
    ghost predicate ValidGraph() {
      && (forall u: nat, i: nat :: u < |adjacent| && i < |adjacent[u]| ==>
            adjacent[u][i].target < |adjacent| && 0 < adjacent[u][i].weight)
      && (forall u: nat, i: nat {:trigger Mirrored(u, i)} :: u < |adjacent| && i < |adjacent[u]| ==> Mirrored(u, i))
      && (forall level: nat, u: nat :: u < |adjacent| ==> internalEnd(level, u) <= |adjacent[u]|)
      && (forall level: nat, u: nat, i: nat :: 1 <= level < levels && u < |adjacent| && i < |adjacent[u]| ==>
            (i < internalEnd(level, u) <==> cell(level, adjacent[u][i].target) == cell(level, u)))
    }

    ghost predicate Mirrored(u: NodeID, i: nat)
      requires u < |adjacent| && i < |adjacent[u]| && adjacent[u][i].target < |adjacent|
    {
      var e := adjacent[u][i];
      exists j :: 0 <= j < |adjacent[e.target]| && adjacent[e.target][j].target == u
                  && adjacent[e.target][j].backward == e.forward && adjacent[e.target][j].forward == e.backward
    }

    predicate SameCell(level: LevelID, u: NodeID, v: NodeID) {
      cell(level, u) == cell(level, v)
    }

    /** Cells are numbered and each level's cells lie within those of the next level. */
    ghost predicate ValidPartition() {
      && (forall level: nat, u: nat :: 1 <= level < levels && u < |adjacent| ==> cell(level, u) < numberOfCells(level))
      && (forall level: nat, u: nat, v: nat {:trigger SameCell(level, u, v)} ::
            1 <= level && level + 1 < levels && SameCell(level, u, v) ==> cell(level + 1, u) == cell(level + 1, v))
    }

    predicate IsCell(level: LevelID, id: CellID) {
      1 <= level < levels && id < numberOfCells(level)
    }

    ghost predicate ValidCell(level: LevelID, id: CellID) {
      var c := storage(level, id);
      && (forall u: nat :: u in c.sources <==> u < |adjacent| && cell(level, u) == id && IsSource(level, u))
      && (forall u: nat :: u in c.destinations <==> u < |adjacent| && cell(level, u) == id && IsDestination(level, u))
      && (forall i, j :: 0 <= i < j < |c.sources| ==> c.sources[i] != c.sources[j])
    }

    ghost predicate ValidStorage() {
      && (forall level: nat, id: nat :: IsCell(level, id) ==> ValidCell(level, id))
      && (forall level: nat, id: nat, level': nat,
          id': nat {:trigger Apart(storage(level, id), storage(level', id'))} ::
            IsCell(level, id) && IsCell(level', id') && (level, id) != (level', id') ==>
              Apart(storage(level, id), storage(level', id')))
    }

    ghost predicate Valid() {
      ValidGraph() && ValidPartition() && ValidStorage()
    }

    ghost predicate IsBaseArc(allowed: seq<bool>, a: Arc)
      requires |allowed| == |adjacent|
    {
      && a.from < |adjacent| && a.to < |adjacent| && allowed[a.from] && allowed[a.to]
      && exists i :: 0 <= i < |adjacent[a.from]| && adjacent[a.from][i].forward
                     && EdgeArc(a.from, adjacent[a.from][i]) == a
    }

    /** The forward edges between allowed nodes of one cell: the graph whose distances the tables must hold. */
    ghost function CellArcs(allowed: seq<bool>, level: LevelID, id: CellID): Arcs
      requires |allowed| == |adjacent|
    {
      iset a | IsBaseArc(allowed, a) && cell(level, a.from) == id && cell(level, a.to) == id
    }

    ghost predicate IsTableEntry(allowed: seq<bool>, level: LevelID, a: Arc)
      requires |allowed| == |adjacent|
    {
      && a.from < |adjacent| && a.to < |adjacent| && allowed[a.from] && allowed[a.to]
      && cell(level, a.from) == cell(level, a.to) && IsSource(level, a.from) && IsDestination(level, a.to)
      && IsDistance(CellArcs(allowed, level, cell(level, a.from)), a.from, a.to, Some(a.cost))
    }

    /** The arcs that the search of a cell takes from the tables one level below. */
    ghost function CliqueArcs(allowed: seq<bool>, level: LevelID, id: CellID): Arcs
      requires |allowed| == |adjacent|
    {
      iset a | 1 < level && IsTableEntry(allowed, level - 1, a) && cell(level, a.from) == id
    }

    ghost function BorderArcs(allowed: seq<bool>, level: LevelID, id: CellID): Arcs
      requires |allowed| == |adjacent|
    {
      iset a | a in CellArcs(allowed, level, id) && (1 < level ==> cell(level - 1, a.from) != cell(level - 1, a.to))
    }

    ghost function Overlay(allowed: seq<bool>, level: LevelID, id: CellID): Arcs
      requires |allowed| == |adjacent|
    {
      CliqueArcs(allowed, level, id) + BorderArcs(allowed, level, id)
    }

    ghost predicate HasDistance(allowed: seq<bool>, level: LevelID, u: NodeID, v: NodeID)
      requires |allowed| == |adjacent|
    {
      exists d :: IsDistance(CellArcs(allowed, level, cell(level, u)), u, v, d)
    }

    /** The tables of a level have been filled: every pair that has an entry has a distance. */
    ghost predicate Tabulated(allowed: seq<bool>, level: LevelID)
      requires |allowed| == |adjacent|
    {
      forall u: nat, v: nat {:trigger HasDistance(allowed, level, u, v)} ::
        u < |adjacent| && v < |adjacent| && allowed[u] && cell(level, u) == cell(level, v) && IsSource(level, u)
        && IsDestination(level, v)
        ==> HasDistance(allowed, level, u, v)
    }
  }

  ghost predicate Apart(a: CellData, b: CellData) {
    a.ValueEnd() <= b.valueOffset || b.ValueEnd() <= a.valueOffset
  }

  lemma CellArcsPositive(net: Network, allowed: seq<bool>, level: LevelID, id: CellID)
    requires net.ValidGraph() && |allowed| == |net.adjacent|
    ensures Positive(net.CellArcs(allowed, level, id))
  {
  }

  lemma OverlayPositive(net: Network, allowed: seq<bool>, level: LevelID, id: CellID)
    requires net.ValidGraph() && |allowed| == |net.adjacent|
    ensures Positive(net.Overlay(allowed, level, id))
  {
    forall a | a in net.CliqueArcs(allowed, level, id)
      ensures if a.from == a.to then 0 <= a.cost.weight && AtMost(ZERO, a.cost) else 0 < a.cost.weight
    {
      var arcs := net.CellArcs(allowed, level - 1, net.cell(level - 1, a.from));
      CellArcsPositive(net, allowed, level - 1, net.cell(level - 1, a.from));
      var p :| IsPath(arcs, a.from, p, a.to) && PathCost(p) == a.cost;
      PathWeight(arcs, a.from, p, a.to);
      if a.from == a.to {
        ClosedWalkCost(arcs, a.from, p);
      }
    }
  }

  lemma TabulatedDistance(net: Network, allowed: seq<bool>, level: LevelID, u: NodeID, v: NodeID, p: seq<Arc>)
    returns (a: Arc)
    requires net.ValidGraph() && |allowed| == |net.adjacent| && net.Tabulated(allowed, level)
    requires u < |allowed| && v < |allowed| && allowed[u] && allowed[v] && net.cell(level, u) == net.cell(level, v)
    requires net.IsSource(level, u) && net.IsDestination(level, v)
    requires IsPath(net.CellArcs(allowed, level, net.cell(level, u)), u, p, v)
    ensures a.from == u && a.to == v && net.IsTableEntry(allowed, level, a) && AtMost(a.cost, PathCost(p))
  {
    assert net.HasDistance(allowed, level, u, v);
    var d :| IsDistance(net.CellArcs(allowed, level, net.cell(level, u)), u, v, d);
    a := Arc(u, v, d.value);
  }

  /** The triangle inequality on a sub-cell's table, which justifies the pruning rule. */
  lemma ComposeClique(net: Network, allowed: seq<bool>, level: LevelID, id: CellID, a: Arc, b: Arc) returns (c: Arc)
    requires net.ValidGraph() && |allowed| == |net.adjacent| && 1 < level && net.Tabulated(allowed, level - 1)
    requires a in net.CliqueArcs(allowed, level, id) && b in net.CliqueArcs(allowed, level, id) && a.to == b.from
    ensures c in net.CliqueArcs(allowed, level, id) && c.from == a.from && c.to == b.to
            && AtMost(c.cost, Add(a.cost, b.cost))
  {
    hide Network.ValidGraph, Network.Tabulated, Network.IsSource, Network.IsDestination, Network.CellArcs, IsPath,
         PathCost;
    var arcs := net.CellArcs(allowed, level - 1, net.cell(level - 1, a.from));
    var p :| IsPath(arcs, a.from, p, a.to) && PathCost(p) == a.cost;
    var q :| IsPath(arcs, b.from, q, b.to) && PathCost(q) == b.cost;
    PathConcat(arcs, a.from, p, a.to, q, b.to);
    c := TabulatedDistance(net, allowed, level - 1, a.from, b.to, p + q);
  }

  lemma CliqueTransitive(net: Network, allowed: seq<bool>, level: LevelID, id: CellID)
    requires net.ValidGraph() && |allowed| == |net.adjacent|
    requires 1 < level ==> net.Tabulated(allowed, level - 1)
    ensures Transitive(net.CliqueArcs(allowed, level, id))
  {
    var clique := net.CliqueArcs(allowed, level, id);
    forall a, b {:trigger Follows(a, b)} | a in clique && b in clique && Follows(a, b)
      ensures exists c :: c in clique && c.from == a.from && c.to == b.to && AtMost(c.cost, Add(a.cost, b.cost))
    {
      var c := ComposeClique(net, allowed, level, id, a, b);
    }
  }

  lemma BoundaryBelow(net: Network, level: LevelID, u: NodeID)
    requires net.ValidGraph() && net.ValidPartition() && 1 < level < net.levels && u < |net.adjacent|
    requires net.IsBoundary(level, u)
    ensures net.IsBoundary(level - 1, u)
  {
    var i :| 0 <= i < |net.adjacent[u]| && net.cell(level, net.adjacent[u][i].target) != net.cell(level, u);
    var sameBelow := net.SameCell(level - 1, net.adjacent[u][i].target, u);
  }

  lemma {:induction false} LastArc(arcs: Arcs, s: NodeID, p: seq<Arc>, t: NodeID)
    requires IsPath(arcs, s, p, t) && p != []
    ensures p[|p| - 1] in arcs && p[|p| - 1].to == t
    decreases p
  {
    if p[1..] != [] {
      LastArc(arcs, p[0].to, p[1..], t);
    } else {
      assert p[0].to == t;
    }
  }

  lemma ArcEnds(net: Network, allowed: seq<bool>, level: LevelID, a: Arc)
    requires net.ValidGraph() && |allowed| == |net.adjacent| && net.IsBaseArc(allowed, a)
    ensures net.cell(level, a.from) == net.cell(level, a.to)
            ==> net.StartsInside(level, a.from) && net.EndsInside(level, a.to)
    ensures net.cell(level, a.from) != net.cell(level, a.to)
            ==> net.IsBoundary(level, a.from) && net.IsBoundary(level, a.to)
  {
    var i :| 0 <= i < |net.adjacent[a.from]| && net.adjacent[a.from][i].forward
        && EdgeArc(a.from, net.adjacent[a.from][i]) == a;
    assert net.Mirrored(a.from, i);
    var j :| 0 <= j < |net.adjacent[a.to]| && net.adjacent[a.to][j].target == a.from && net.adjacent[a.to][j].backward;
  }

  /** A stretch of a path that stays in one sub-cell between boundary nodes is at most one clique arc. */
  lemma Shortcut(net: Network, allowed: seq<bool>, level: LevelID, s: NodeID, inner: seq<Arc>, m: NodeID)
    returns (q: seq<Arc>)
    requires net.ValidGraph() && 1 < level < net.levels && |allowed| == |net.adjacent|
             && net.Tabulated(allowed, level - 1)
    requires s < |net.adjacent| && allowed[s] && m < |net.adjacent|
    requires net.IsBoundary(level - 1, s) && net.IsBoundary(level - 1, m)
    requires IsPath(net.CellArcs(allowed, level - 1, net.cell(level - 1, s)), s, inner, m)
    ensures IsPath(net.Overlay(allowed, level, net.cell(level, s)), s, q, m)
    ensures AtMost(PathCost(q), PathCost(inner))
  {
    if inner == [] {
      return [];
    }
    var sub := net.CellArcs(allowed, level - 1, net.cell(level - 1, s));
    LastArc(sub, s, inner, m);
    ArcEnds(net, allowed, level - 1, inner[0]);
    ArcEnds(net, allowed, level - 1, inner[|inner| - 1]);
    var a := TabulatedDistance(net, allowed, level - 1, s, m, inner);
    assert a in net.CliqueArcs(allowed, level, net.cell(level, s));
    assert IsPath(net.Overlay(allowed, level, net.cell(level, s)), s, [], s);
    PathSnoc(net.Overlay(allowed, level, net.cell(level, s)), s, [], a);
    q := [] + [a];
  }

  lemma Join(net: Network, allowed: seq<bool>, level: LevelID, id: CellID, s: NodeID, head: seq<Arc>, a: Arc,
          tail: seq<Arc>, t: NodeID)
    returns (q: seq<Arc>)
    requires |allowed| == |net.adjacent| && a in net.BorderArcs(allowed, level, id)
    requires IsPath(net.Overlay(allowed, level, id), s, head, a.from)
    requires IsPath(net.Overlay(allowed, level, id), a.to, tail, t)
    ensures IsPath(net.Overlay(allowed, level, id), s, q, t)
    ensures PathCost(q) == Add(PathCost(head), Add(a.cost, PathCost(tail)))
  {
    PathSnoc(net.Overlay(allowed, level, id), s, head, a);
    PathConcat(net.Overlay(allowed, level, id), s, head + [a], a.to, tail, t);
    q := head + [a] + tail;
  }

  lemma NoSteps(arcs: Arcs, s: NodeID, p: seq<Arc>, t: NodeID)
    requires IsPath(arcs, s, p, t)
    ensures p == [] ==> s == t && PathCost(p) == ZERO
  {
  }

  lemma NoWalk(arcs: Arcs, s: NodeID)
    ensures IsPath(arcs, s, [], s) && PathCost([]) == ZERO
  {
  }

  lemma FirstStep(arcs: Arcs, s: NodeID, p: seq<Arc>, t: NodeID)
    requires IsPath(arcs, s, p, t) && p != []
    ensures p[0] in arcs && p[0].from == s && IsPath(arcs, p[0].to, p[1..], t)
    ensures PathCost(p) == Add(p[0].cost, PathCost(p[1..]))
  {
  }

  /** Splitting a path at the borders of the sub-cells: a path inside the cell between nodes on sub-cell
      borders has an overlay path that costs no more. `inner` is the part already walked in the current sub-cell. */
  lemma {:induction false} ToOverlay(net: Network, allowed: seq<bool>, level: LevelID, id: CellID,
                                     s: NodeID, inner: seq<Arc>, m: NodeID, rest: seq<Arc>, t: NodeID)
                                       returns (q: seq<Arc>)
    requires net.ValidGraph() && 1 < level < net.levels && |allowed| == |net.adjacent|
             && net.Tabulated(allowed, level - 1)
    requires s < |net.adjacent| && allowed[s] && net.cell(level, s) == id && net.IsBoundary(level - 1, s)
    requires t < |net.adjacent| && net.IsBoundary(level - 1, t)
    requires IsPath(net.CellArcs(allowed, level - 1, net.cell(level - 1, s)), s, inner, m)
    requires IsPath(net.CellArcs(allowed, level, id), m, rest, t)
    ensures IsPath(net.Overlay(allowed, level, id), s, q, t)
    ensures AtMost(PathCost(q), Add(PathCost(inner), PathCost(rest)))
    decreases rest
  {
    hide Network.ValidGraph, Network.Tabulated, Network.IsBoundary, Network.Overlay, IsPath, PathCost;
    var sub := net.CellArcs(allowed, level - 1, net.cell(level - 1, s));
    NoSteps(net.CellArcs(allowed, level, id), m, rest, t);
    if rest == [] {
      q := Shortcut(net, allowed, level, s, inner, m);
      return;
    }
    var a := rest[0];
    FirstStep(net.CellArcs(allowed, level, id), m, rest, t);
    NoSteps(sub, s, inner, m);
    if inner != [] {
      LastArc(sub, s, inner, m);
    }
    assert net.cell(level - 1, a.from) == net.cell(level - 1, s);
    ArcEnds(net, allowed, level - 1, a);
    if net.cell(level - 1, a.to) == net.cell(level - 1, s) {
      PathSnoc(sub, s, inner, a);
      q := ToOverlay(net, allowed, level, id, s, inner + [a], a.to, rest[1..], t);
    } else {
      var head := Shortcut(net, allowed, level, s, inner, m);
      NoWalk(net.CellArcs(allowed, level - 1, net.cell(level - 1, a.to)), a.to);
      var tail := ToOverlay(net, allowed, level, id, a.to, [], a.to, rest[1..], t);
      q := Join(net, allowed, level, id, s, head, a, tail, t);
    }
  }

  /** Every overlay path stands for a path inside the cell of the same cost. */
  lemma {:induction false} ToBase(net: Network, allowed: seq<bool>, level: LevelID, id: CellID, s: NodeID, q: seq<Arc>,
          t: NodeID)
    returns (p: seq<Arc>)
    requires net.ValidPartition() && 1 < level < net.levels && |allowed| == |net.adjacent|
    requires IsPath(net.Overlay(allowed, level, id), s, q, t)
    ensures IsPath(net.CellArcs(allowed, level, id), s, p, t)
    ensures PathCost(p) == PathCost(q)
    decreases q
  {
    if q == [] {
      return [];
    }
    var arcs := net.CellArcs(allowed, level, id);
    var a := q[0];
    var tail := ToBase(net, allowed, level, id, a.to, q[1..], t);
    var head: seq<Arc>;
    if a in net.CliqueArcs(allowed, level, id) {
      var sub := net.CellArcs(allowed, level - 1, net.cell(level - 1, s));
      head :| IsPath(sub, s, head, a.to) && PathCost(head) == a.cost;
      forall b | b in sub ensures b in arcs {
        assert net.SameCell(level - 1, b.from, s) && net.SameCell(level - 1, b.to, s);
      }
      PathMono(sub, arcs, s, head, a.to);
    } else {
      assert IsPath(arcs, s, [], s);
      PathSnoc(arcs, s, [], a);
      head := [] + [a];
    }
    PathConcat(arcs, s, head, a.to, tail, t);
    p := head + tail;
  }

  /** Between nodes on sub-cell borders the overlay has exactly the distances of the cell's own graph. */
  lemma OverlayDistance(net: Network, allowed: seq<bool>, level: LevelID, id: CellID, s: NodeID, t: NodeID,
          d: Option<Cost>)
    requires net.Valid() && net.IsCell(level, id) && |allowed| == |net.adjacent|
    requires 1 < level ==> net.Tabulated(allowed, level - 1)
    requires s < |net.adjacent| && allowed[s] && net.cell(level, s) == id && net.IsBoundary(level, s)
    requires t < |net.adjacent| && net.IsBoundary(level, t)
    requires IsDistance(net.Overlay(allowed, level, id), s, t, d)
    ensures IsDistance(net.CellArcs(allowed, level, id), s, t, d)
  {
    hide Network.ValidGraph, Network.Tabulated, Network.IsBoundary, Network.ValidPartition, Network.ValidStorage,
         IsPath, PathCost;
    var overlay := net.Overlay(allowed, level, id);
    var arcs := net.CellArcs(allowed, level, id);
    if level == 1 {
      assert overlay == arcs;
      return;
    }
    hide Network.Overlay, Network.CellArcs;
    BoundaryBelow(net, level, s);
    BoundaryBelow(net, level, t);
    NoWalk(net.CellArcs(allowed, level - 1, net.cell(level - 1, s)), s);
    match d
    case None =>
      forall p ensures !IsPath(arcs, s, p, t) {
        if IsPath(arcs, s, p, t) {
          var q := ToOverlay(net, allowed, level, id, s, [], s, p, t);
        }
      }
    case Some(c) =>
      forall p | IsPath(arcs, s, p, t) ensures AtMost(c, PathCost(p)) {
        var q := ToOverlay(net, allowed, level, id, s, [], s, p, t);
      }
      var q :| IsPath(overlay, s, q, t) && PathCost(q) == c;
      var p := ToBase(net, allowed, level, id, s, q, t);
  }

  /** A walk inside a cell, by the index of the edge it takes at each node: only forward edges between allowed nodes
      of the cell. */
  ghost predicate Walks(net: Network, allowed: seq<bool>, level: LevelID, id: CellID, s: NodeID, w: seq<nat>, t: NodeID)
    requires |allowed| == |net.adjacent|
    decreases w
  {
    if w == [] then s == t
    else
      && s < |net.adjacent| && allowed[s] && net.cell(level, s) == id && w[0] < |net.adjacent[s]|
      && var e := net.adjacent[s][w[0]];
         && e.forward && e.target < |net.adjacent| && allowed[e.target] && net.cell(level, e.target) == id
         && Walks(net, allowed, level, id, e.target, w[1..], t)
  }

  /** The edges of a walk. */
  function WalkEdges(net: Network, s: NodeID, w: seq<nat>): (edges: seq<GraphEdge>)
    decreases w
  {
    if w == [] || |net.adjacent| <= s || |net.adjacent[s]| <= w[0] then []
    else [net.adjacent[s][w[0]]] + WalkEdges(net, net.adjacent[s][w[0]].target, w[1..])
  }

  function SumWeight(edges: seq<GraphEdge>): int {
    if edges == [] then 0 else edges[0].weight + SumWeight(edges[1..])
  }

  function SumDuration(edges: seq<GraphEdge>): int {
    if edges == [] then 0 else edges[0].duration + SumDuration(edges[1..])
  }

  function SumDistance(edges: seq<GraphEdge>): real {
    if edges == [] then 0.0 else edges[0].distance + SumDistance(edges[1..])
  }

  ghost predicate SumsTo(edges: seq<GraphEdge>, cost: Cost) {
    SumWeight(edges) == cost.weight && SumDuration(edges) == cost.duration && SumDistance(edges) == cost.distance
  }

  lemma SumsStep(e: GraphEdge, edges: seq<GraphEdge>, cost: Cost)
    requires SumsTo(edges, cost)
    ensures SumsTo([e] + edges, Add(Cost(e.weight, e.duration, e.distance), cost))
  {
    assert ([e] + edges)[1..] == edges;
  }

  /** A walk is a path of arcs inside the cell whose cost is the sum over its edges. */
  lemma {:induction false} WalkIsPath(net: Network, allowed: seq<bool>, level: LevelID, id: CellID, s: NodeID,
          w: seq<nat>,
                                      t: NodeID) returns (p: seq<Arc>)
    requires |allowed| == |net.adjacent| && Walks(net, allowed, level, id, s, w, t)
    ensures IsPath(net.CellArcs(allowed, level, id), s, p, t) && SumsTo(WalkEdges(net, s, w), PathCost(p))
    decreases w
  {
    p := [];
    if w != [] {
      var e := net.adjacent[s][w[0]];
      var tail := WalkIsPath(net, allowed, level, id, e.target, w[1..], t);
      p := [EdgeArc(s, e)] + tail;
      assert p[1..] == tail;
      assert EdgeArc(s, e) in net.CellArcs(allowed, level, id);
      SumsStep(e, WalkEdges(net, e.target, w[1..]), PathCost(tail));
    }
  }

  lemma {:induction false} PathIsWalk(net: Network, allowed: seq<bool>, level: LevelID, id: CellID, s: NodeID,
          p: seq<Arc>,
                                      t: NodeID) returns (w: seq<nat>)
    requires |allowed| == |net.adjacent| && IsPath(net.CellArcs(allowed, level, id), s, p, t)
    ensures Walks(net, allowed, level, id, s, w, t) && SumsTo(WalkEdges(net, s, w), PathCost(p))
    decreases p
  {
    w := [];
    if p != [] {
      var tail := PathIsWalk(net, allowed, level, id, p[0].to, p[1..], t);
      var i :| 0 <= i < |net.adjacent[s]| && net.adjacent[s][i].forward && EdgeArc(s, net.adjacent[s][i]) == p[0];
      w := [i] + tail;
      assert w[1..] == tail;
      SumsStep(net.adjacent[s][i], WalkEdges(net, p[0].to, tail), PathCost(p[1..]));
    }
  }
}
