/** Bottom-up customization: for each cell, one search per source node fills a row of the cell's
    source x destination table, using the tables one level below as clique arcs. */
module CellCustomizer {
  import opened Options
  import opened Paths
  import opened QueryHeaps
  import opened CliqueSearch
  import opened MultiLevel

  /** The sentinel weight is kept apart from every real weight; the other two sentinels are plain numbers. */
  type EdgeWeight = Option<int>
  const INVALID_EDGE_WEIGHT: EdgeWeight := None
  const MAXIMAL_EDGE_DURATION := 0x7fff_ffff
  const INVALID_EDGE_DISTANCE := 340282346638528859811704183484516925440.0

  /** The three value arrays of a metric. */
  datatype Tables = Tables(weights: seq<EdgeWeight>, durations: seq<int>, distances: seq<real>) {
    ghost predicate Fits(net: Network)
    {
      && |durations| == |weights| && |distances| == |weights|
      && forall level: nat, id: nat :: net.IsCell(level, id) ==> net.storage(level, id).ValueEnd() <= |weights|
    }

    function Entry(pos: nat): Option<Cost>
      requires pos < |weights| && |durations| == |weights| && |distances| == |weights|
    {
      match weights[pos]
      case None => None
      case Some(w) => Some(Cost(w, durations[pos], distances[pos]))
    }

    /** Row `row` of a cell holds the distances inside the cell from its source to every destination. */
    ghost predicate RowExact(net: Network, allowed: seq<bool>, level: LevelID, id: CellID, row: nat)
      requires Fits(net) && net.IsCell(level, id) && |allowed| == |net.adjacent|
      requires row < |net.storage(level, id).sources|
    {
      var c := net.storage(level, id);
      forall j: nat :: j < |c.destinations| ==>
        && c.Position(row, j) < |weights|
        && IsDistance(net.CellArcs(allowed, level, id), c.sources[row], c.destinations[j], Entry(c.Position(row, j)))
        && Marked(c.Position(row, j))
    }

    /** An entry without a weight has the other two sentinels as well. */
    predicate Marked(pos: nat)
      requires pos < |weights| && |durations| == |weights| && |distances| == |weights|
    {
      weights[pos].None? ==> durations[pos] == MAXIMAL_EDGE_DURATION && distances[pos] == INVALID_EDGE_DISTANCE
    }

    ghost predicate CellExact(net: Network, allowed: seq<bool>, level: LevelID, id: CellID)
      requires net.Valid() && Fits(net) && net.IsCell(level, id) && |allowed| == |net.adjacent|
    {
      var c := net.storage(level, id);
      forall row: nat :: row < |c.sources| && AllowedAt(allowed, c.sources, row)
                         ==> RowExact(net, allowed, level, id, row)
    }

    ghost predicate LevelExact(net: Network, allowed: seq<bool>, level: LevelID)
      requires net.Valid() && Fits(net) && |allowed| == |net.adjacent|
    {
      forall id: nat :: net.IsCell(level, id) ==> CellExact(net, allowed, level, id)
    }

    /** Only positions in [begin, end) may differ from `was`. */
    ghost predicate SameOutside(was: Tables, begin: nat, end: nat) {
      && |weights| == |was.weights| && |durations| == |was.durations| && |distances| == |was.distances|
      && (forall p: nat :: p < |weights| && !(begin <= p < end) ==> weights[p] == was.weights[p])
      && (forall p: nat :: p < |durations| && !(begin <= p < end) ==> durations[p] == was.durations[p])
      && (forall p: nat :: p < |distances| && !(begin <= p < end) ==> distances[p] == was.distances[p])
    }
  }

  class CellMetric {
    var weights: seq<EdgeWeight>
    var durations: seq<int>
    var distances: seq<real>

    function Value(): Tables
      reads this
    {
      Tables(weights, durations, distances)
    }
  }

  predicate AllowedAt(allowed: seq<bool>, nodes: seq<NodeID>, i: nat)
    requires i < |nodes|
  {
    nodes[i] < |allowed| && allowed[nodes[i]]
  }

  ghost function State(heap: QueryHeap): Search
    requires heap.Valid()
    reads heap, heap.positions
  {
    Search(heap.Labels(), heap.Queued())
  }

  /** std::find over a node range: the first position of the node, or the length. */
  function Find(nodes: seq<NodeID>, node: NodeID): (i: nat)
    ensures i <= |nodes| && (i < |nodes| ==> nodes[i] == node) && (i == |nodes| ==> node !in nodes)
    ensures forall k :: 0 <= k < i ==> nodes[k] != node
  {
    if nodes == [] || nodes[0] == node then 0 else 1 + Find(nodes[1..], node)
  }

  ghost predicate InsideCell(net: Network, allowed: seq<bool>, level: LevelID, id: CellID, st: Search)
    requires |allowed| == |net.adjacent|
  {
    forall v :: v in st.labels ==> v < |allowed| && allowed[v] && net.cell(level, v) == id
  }

  lemma LevelExactTabulated(net: Network, allowed: seq<bool>, metric: Tables, level: LevelID)
    requires net.Valid() && metric.Fits(net) && |allowed| == |net.adjacent| && 1 <= level < net.levels
    requires metric.LevelExact(net, allowed, level)
    ensures net.Tabulated(allowed, level)
  {
    forall u: nat, v: nat | u < |net.adjacent| && v < |net.adjacent| && allowed[u]
      && net.cell(level, u) == net.cell(level, v) && net.IsSource(level, u) && net.IsDestination(level, v)
      ensures net.HasDistance(allowed, level, u, v)
    {
      var id := net.cell(level, u);
      assert net.IsCell(level, id) && net.ValidCell(level, id) && metric.CellExact(net, allowed, level, id);
      var c := net.storage(level, id);
      var row, j := Find(c.sources, u), Find(c.destinations, v);
      assert AllowedAt(allowed, c.sources, row) && metric.RowExact(net, allowed, level, id, row);
      assert IsDistance(net.CellArcs(allowed, level, id), u, v, metric.Entry(c.Position(row, j)));
    }
  }

  /** A valid entry of a readable row is an arc to an allowed node, so the skip of the search is never taken there. */
  lemma EntryIsTableArc(net: Network, allowed: seq<bool>, metric: Tables, level: LevelID, id: CellID, row: nat, j: nat)
    requires net.Valid() && metric.Fits(net) && |allowed| == |net.adjacent| && net.IsCell(level, id)
    requires metric.LevelExact(net, allowed, level)
    requires row < |net.storage(level, id).sources| && AllowedAt(allowed, net.storage(level, id).sources, row)
    requires j < |net.storage(level, id).destinations|
    ensures var c := net.storage(level, id);
            var pos := c.Position(row, j);
            pos < |metric.weights| && c.destinations[j] < |allowed|
            && (metric.weights[pos].Some? ==>
                  allowed[c.destinations[j]] &&
                  net.IsTableEntry(allowed, level, Arc(c.sources[row], c.destinations[j], metric.Entry(pos).value)))
  {
    var c := net.storage(level, id);
    assert net.ValidCell(level, id) && metric.CellExact(net, allowed, level, id)
           && metric.RowExact(net, allowed, level, id, row);
    var u, v := c.sources[row], c.destinations[j];
    assert u in c.sources && v in c.destinations;
    var arcs := net.CellArcs(allowed, level, id);
    var d := metric.Entry(c.Position(row, j));
    if d.Some? {
      var p :| IsPath(arcs, u, p, v) && PathCost(p) == d.value;
      if p != [] {
        LastArc(arcs, u, p, v);
      }
    }
  }

  lemma TableArcHasEntry(net: Network, allowed: seq<bool>, metric: Tables, level: LevelID, a: Arc)
    returns (row: nat, j: nat)
    requires net.Valid() && metric.Fits(net) && |allowed| == |net.adjacent| && 1 <= level < net.levels
    requires metric.LevelExact(net, allowed, level) && net.IsTableEntry(allowed, level, a)
    ensures var c := net.storage(level, net.cell(level, a.from));
            && row == Find(c.sources, a.from) < |c.sources| && j < |c.destinations| && c.destinations[j] == a.to
            && c.Position(row, j) < |metric.weights| && metric.Entry(c.Position(row, j)) == Some(a.cost)
  {
    var id := net.cell(level, a.from);
    var c := net.storage(level, id);
    assert net.IsCell(level, id) && net.ValidCell(level, id) && metric.CellExact(net, allowed, level, id);
    row, j := Find(c.sources, a.from), Find(c.destinations, a.to);
    assert AllowedAt(allowed, c.sources, row) && metric.RowExact(net, allowed, level, id, row);
    DistanceUnique(net.CellArcs(allowed, level, id), a.from, a.to, metric.Entry(c.Position(row, j)), Some(a.cost));
  }

  /** Insert a new node, or improve a queued one when the (weight, duration, distance) triple is smaller. */
  method RelaxTo(heap: QueryHeap, to: NodeID, weight: int, duration: int, distance: real, fromClique: bool)
    requires heap.Valid() && to < heap.Domain()
    requires to in State(heap).labels && Less(Cost(weight, duration, distance), State(heap).labels[to].cost)
             ==> to in State(heap).queue
    modifies heap, heap.positions
    ensures heap.Valid() && State(heap) == Relaxed(old(State(heap)), to, Cost(weight, duration, distance), fromClique)
  {
    if !heap.WasInserted(to) {
      heap.Insert(to, weight, HeapData(fromClique, duration, distance));
    } else if Less(Cost(weight, duration, distance),
                   Cost(heap.GetKey(to), heap.GetData(to).duration, heap.GetData(to).distance)) {
      heap.DecreaseKey(to, weight);
      heap.SetData(to, HeapData(fromClique, duration, distance));
    }
  }

  /** What every step of scanning `node` keeps. */
  ghost predicate Scanning(net: Network, allowed: seq<bool>, level: LevelID, id: CellID, source: NodeID, node: NodeID,
                           st0: Search, st: Search)
    requires |allowed| == |net.adjacent|
  {
    && Sound(net.Overlay(allowed, level, id), net.CliqueArcs(allowed, level, id), source, st)
    && Improves(st0, st) && IsLastSettled(st, node) && InsideCell(net, allowed, level, id, st)
  }

  lemma InsideStays(net: Network, allowed: seq<bool>, level: LevelID, id: CellID, st: Search, to: NodeID, cost: Cost,
          fromClique: bool)
    requires |allowed| == |net.adjacent| && InsideCell(net, allowed, level, id, st)
    requires to < |allowed| && allowed[to] && net.cell(level, to) == id
    ensures InsideCell(net, allowed, level, id, Relaxed(st, to, cost, fromClique))
  {
  }

  lemma ScanStep(net: Network, allowed: seq<bool>, level: LevelID, id: CellID, source: NodeID,
                 st0: Search, st: Search, node: NodeID, to: NodeID, step: Cost, fromClique: bool)
    requires net.ValidGraph() && |allowed| == |net.adjacent|
    requires Scanning(net, allowed, level, id, source, node, st0, st)
    requires Arc(node, to, step) in net.Overlay(allowed, level, id) && to < |allowed| && allowed[to]
             && net.cell(level, to) == id
    requires fromClique ==> Arc(node, to, step) in net.CliqueArcs(allowed, level, id) && !st.labels[node].fromClique
    ensures var cost := Add(st.labels[node].cost, step);
            var st' := Relaxed(st, to, cost, fromClique);
            && Scanning(net, allowed, level, id, source, node, st0, st') && Improves(st, st')
            && Relaxes(st'.labels, Arc(node, to, step))
            && (to in st.labels && Less(cost, st.labels[to].cost) ==> to in st.queue)
  {
    hide Sound, Improves, InsideCell, Relaxes, Relaxed, Positive, Network.Overlay, Network.CliqueArcs,
         Network.ValidGraph;
    OverlayPositive(net, allowed, level, id);
    InsideStays(net, allowed, level, id, st, to, Add(st.labels[node].cost, step), fromClique);
    RelaxArc(net.Overlay(allowed, level, id), net.CliqueArcs(allowed, level, id), source, st, Arc(node, to, step),
        fromClique);
    ImprovesTransitive(st0, st, Relaxed(st, to, Add(st.labels[node].cost, step), fromClique));
  }

  /** The setting in which the clique arcs of `node` are scanned: `row` is its row in the sub-cell's table. */
  ghost predicate ReadsRow(net: Network, allowed: seq<bool>, metric: Tables, level: LevelID, id: CellID, sub: CellData,
          row: nat, node: NodeID)
  {
    && net.Valid() && |allowed| == |net.adjacent| && metric.Fits(net) && 1 < level && net.IsCell(level, id)
    && metric.LevelExact(net, allowed, level - 1)
    && node < |allowed| && allowed[node] && net.cell(level, node) == id
    && sub == net.storage(level - 1, net.cell(level - 1, node)) && row == Find(sub.sources, node)
  }

  lemma RowEntry(net: Network, allowed: seq<bool>, metric: Tables, level: LevelID, id: CellID, sub: CellData, row: nat,
          node: NodeID, k: nat)
    requires ReadsRow(net, allowed, metric, level, id, sub, row, node)
    requires row < |sub.sources| && k < |sub.destinations|
    ensures sub.Position(row, k) < |metric.weights| && sub.destinations[k] < |allowed|
    ensures metric.Entry(sub.Position(row, k)).Some? ==>
              allowed[sub.destinations[k]] && net.cell(level, sub.destinations[k]) == id &&
              Arc(node, sub.destinations[k], metric.Entry(sub.Position(row, k)).value)
                  in net.CliqueArcs(allowed, level, id)
  {
    var subId := net.cell(level - 1, node);
    assert net.IsCell(level - 1, subId) && net.ValidCell(level - 1, subId);
    assert AllowedAt(allowed, sub.sources, row);
    EntryIsTableArc(net, allowed, metric, level - 1, subId, row, k);
    var same := net.SameCell(level - 1, node, sub.destinations[k]);
  }

  lemma RowCoversCliques(net: Network, allowed: seq<bool>, metric: Tables, level: LevelID, id: CellID, sub: CellData,
          row: nat,
                         node: NodeID, st: Search)
    requires ReadsRow(net, allowed, metric, level, id, sub, row, node) && node in st.labels
    requires row < |sub.sources| ==> RowRelaxed(metric, sub, row, |sub.destinations|, node, st)
    ensures CliquesRelaxed(net, allowed, level, id, node, st)
  {
    forall a | a in net.CliqueArcs(allowed, level, id) && a.from == node ensures Relaxes(st.labels, a) {
      var r, j := TableArcHasEntry(net, allowed, metric, level - 1, a);
      assert EntryRelaxed(metric, sub, row, j, node, st);
    }
  }

  ghost predicate CliquesRelaxed(net: Network, allowed: seq<bool>, level: LevelID, id: CellID, node: NodeID, st: Search)
    requires |allowed| == |net.adjacent| && node in st.labels
  {
    forall a :: a in net.CliqueArcs(allowed, level, id) && a.from == node ==> Relaxes(st.labels, a)
  }

  ghost predicate RowRelaxed(metric: Tables, c: CellData, row: nat, k: nat, node: NodeID, st: Search)
    requires k <= |c.destinations| && |metric.durations| == |metric.weights| && |metric.distances| == |metric.weights|
  {
    forall j: nat :: j < k ==> EntryRelaxed(metric, c, row, j, node, st)
  }

  lemma RowStep(net: Network, allowed: seq<bool>, metric: Tables, level: LevelID, id: CellID, source: NodeID,
                sub: CellData, row: nat, st0: Search, st: Search, node: NodeID, k: nat)
    requires ReadsRow(net, allowed, metric, level, id, sub, row, node)
    requires row < |sub.sources| && k < |sub.destinations|
    requires Scanning(net, allowed, level, id, source, node, st0, st) && node in st.labels
             && !st.labels[node].fromClique
    requires RowRelaxed(metric, sub, row, k, node, st)
    ensures sub.Position(row, k) < |metric.weights| && sub.destinations[k] < |allowed|
    ensures match metric.Entry(sub.Position(row, k))
            case None => RowRelaxed(metric, sub, row, k + 1, node, st)
            case Some(step) =>
              var to, cost := sub.destinations[k], Add(st.labels[node].cost, step);
              var st' := Relaxed(st, to, cost, true);
              && allowed[to] && (to in st.labels && Less(cost, st.labels[to].cost) ==> to in st.queue)
              && Scanning(net, allowed, level, id, source, node, st0, st')
              && node in st'.labels && st'.labels[node] == st.labels[node]
              && RowRelaxed(metric, sub, row, k + 1, node, st')
  {
    RowEntry(net, allowed, metric, level, id, sub, row, node, k);
    match metric.Entry(sub.Position(row, k))
    case None =>
    case Some(step) =>
      var to, cost := sub.destinations[k], Add(st.labels[node].cost, step);
      var st' := Relaxed(st, to, cost, true);
      ScanStep(net, allowed, level, id, source, st0, st, node, to, step, true);
      EntriesStayRelaxed(metric, sub, row, k, node, st, st');
      assert EntryRelaxed(metric, sub, row, k, node, st');
  }

  /** Scan the row of `node` in its sub-cell's table. The weights are traversed by the loop itself while the
      destinations, durations and distances have an iterator of their own, which the skip does not advance. */
  method RelaxClique(net: Network, heap: QueryHeap, allowed: seq<bool>, metric: CellMetric, level: LevelID,
                     ghost id: CellID, ghost source: NodeID, node: NodeID, cost: Cost)
    requires heap.Valid() && |allowed| == heap.Domain() && node < |allowed| && 1 < level
    requires ReadsRow(net, allowed, metric.Value(), level, id, net.storage(level - 1, net.cell(level - 1, node)),
                      Find(net.storage(level - 1, net.cell(level - 1, node)).sources, node), node)
    requires Scanning(net, allowed, level, id, source, node, State(heap), State(heap))
    requires node in State(heap).labels && State(heap).labels[node] == Label(cost, false)
    modifies heap, heap.positions
    ensures heap.Valid() && Scanning(net, allowed, level, id, source, node, old(State(heap)), State(heap))
    ensures node in State(heap).labels && State(heap).labels[node] == Label(cost, false)
    ensures CliquesRelaxed(net, allowed, level, id, node, State(heap))
  {
    hide Scanning, EntryRelaxed, QueryHeap.Labels, QueryHeap.Queued;
    ghost var before := State(heap);
    var sub := net.storage(level - 1, net.cell(level - 1, node));
    var row := Find(sub.sources, node);
    if row < |sub.sources| {
      var k, it := 0, 0;
      while k < |sub.destinations|
        invariant it == k <= |sub.destinations|
        invariant heap.Valid() && Scanning(net, allowed, level, id, source, node, before, State(heap))
        invariant node in State(heap).labels && State(heap).labels[node] == Label(cost, false)
        invariant RowRelaxed(metric.Value(), sub, row, k, node, State(heap))
        decreases |sub.destinations| - k
      {
        RowStep(net, allowed, metric.Value(), level, id, source, sub, row, before, State(heap), node, k);
        var weight := metric.weights[sub.Position(row, k)];
        k := k + 1;
        if weight != INVALID_EDGE_WEIGHT {
          var to := sub.destinations[it];
          if !allowed[to] {
            continue;
          }
          var position := sub.Position(row, it);
          RelaxTo(heap, to, cost.weight + weight.value, cost.duration + metric.durations[position],
                  cost.distance + metric.distances[position], true);
        }
        it := it + 1;
      }
    }
    RowCoversCliques(net, allowed, metric.Value(), level, id, sub, row, node, State(heap));
  }

  ghost predicate EntryRelaxed(metric: Tables, c: CellData, row: nat, j: nat, node: NodeID, st: Search)
    requires j < |c.destinations| && |metric.durations| == |metric.weights| && |metric.distances| == |metric.weights|
  {
    node in st.labels && c.Position(row, j) < |metric.weights| &&
    (metric.weights[c.Position(row, j)].Some? ==>
       Relaxes(st.labels, Arc(node, c.destinations[j], metric.Entry(c.Position(row, j)).value)))
  }

  lemma EntriesStayRelaxed(metric: Tables, c: CellData, row: nat, k: nat, node: NodeID, st: Search, st': Search)
    requires k <= |c.destinations| && |metric.durations| == |metric.weights| && |metric.distances| == |metric.weights|
    requires Improves(st, st') && node in st.Settled()
    requires RowRelaxed(metric, c, row, k, node, st)
    ensures RowRelaxed(metric, c, row, k, node, st')
  {
    forall j: nat | j < k ensures EntryRelaxed(metric, c, row, j, node, st') {
      assert EntryRelaxed(metric, c, row, j, node, st);
    }
  }

  ghost predicate BordersRelaxed(net: Network, allowed: seq<bool>, level: LevelID, id: CellID, node: NodeID, k: nat,
          st: Search)
    requires |allowed| == |net.adjacent| && node < |allowed| && k <= |net.adjacent[node]| && node in st.labels
  {
    forall i: nat :: i < k && net.adjacent[node][i].forward ==>
      var a := EdgeArc(node, net.adjacent[node][i]);
      a in net.BorderArcs(allowed, level, id) ==> Relaxes(st.labels, a)
  }

  lemma BordersPersist(net: Network, allowed: seq<bool>, level: LevelID, id: CellID, node: NodeID, k: nat, st: Search,
          st': Search)
    requires |allowed| == |net.adjacent| && node < |allowed| && k <= |net.adjacent[node]|
    requires Improves(st, st') && node in st.Settled() && BordersRelaxed(net, allowed, level, id, node, k, st)
    ensures node in st'.labels && BordersRelaxed(net, allowed, level, id, node, k, st')
  {
    hide Relaxes, Network.BorderArcs;
    forall i: nat | i < k && net.adjacent[node][i].forward
        && EdgeArc(node, net.adjacent[node][i]) in net.BorderArcs(allowed, level, id)
      ensures Relaxes(st'.labels, EdgeArc(node, net.adjacent[node][i]))
    {
      RelaxesPersists(st, st', EdgeArc(node, net.adjacent[node][i]));
    }
  }

  lemma BordersNext(net: Network, allowed: seq<bool>, level: LevelID, id: CellID, node: NodeID, k: nat, st: Search)
    requires |allowed| == |net.adjacent| && node < |allowed| && k < |net.adjacent[node]| && node in st.labels
    requires BordersRelaxed(net, allowed, level, id, node, k, st)
    requires var a := EdgeArc(node, net.adjacent[node][k]);
             net.adjacent[node][k].forward && a in net.BorderArcs(allowed, level, id) ==> Relaxes(st.labels, a)
    ensures BordersRelaxed(net, allowed, level, id, node, k + 1, st)
  {
  }

  lemma BorderStep(net: Network, allowed: seq<bool>, level: LevelID, id: CellID, source: NodeID,
                   st0: Search, st: Search, node: NodeID, k: nat)
    requires net.ValidGraph() && |allowed| == |net.adjacent| && 1 <= level < net.levels
    requires node < |allowed| && allowed[node] && net.cell(level, node) == id
    requires k < net.internalEnd(level, node) <= |net.adjacent[node]|
    requires Scanning(net, allowed, level, id, source, node, st0, st) && node in st.labels
    requires BordersRelaxed(net, allowed, level, id, node, k, st)
    ensures var e := net.adjacent[node][k];
            var cost := Add(st.labels[node].cost, EdgeArc(node, e).cost);
            var st' := Relaxed(st, e.target, cost, false);
            e.target < |allowed| &&
            if allowed[e.target] && e.forward
                && (level == 1 || net.cell(level - 1, node) != net.cell(level - 1, e.target)) then
              && Scanning(net, allowed, level, id, source, node, st0, st')
              && (e.target in st.labels && Less(cost, st.labels[e.target].cost) ==> e.target in st.queue)
              && node in st'.labels && st'.labels[node] == st.labels[node]
              && BordersRelaxed(net, allowed, level, id, node, k + 1, st')
            else
              BordersRelaxed(net, allowed, level, id, node, k + 1, st)
  {
    hide Relaxes, BordersRelaxed, Sound, Improves, InsideCell, Relaxed;
    var e := net.adjacent[node][k];
    var a := EdgeArc(node, e);
    if allowed[e.target] && e.forward && (level == 1 || net.cell(level - 1, node) != net.cell(level - 1, e.target)) {
      assert net.IsBaseArc(allowed, a) && a in net.BorderArcs(allowed, level, id);
      ScanStep(net, allowed, level, id, source, st0, st, node, e.target, a.cost, false);
      var st' := Relaxed(st, e.target, Add(st.labels[node].cost, a.cost), false);
      BordersPersist(net, allowed, level, id, node, k, st, st');
      LabelKept(st, st', node);
      BordersNext(net, allowed, level, id, node, k, st');
    } else {
      BordersNext(net, allowed, level, id, node, k, st);
    }
  }

  lemma LabelKept(st: Search, st': Search, node: NodeID)
    requires Improves(st, st') && node in st.Settled()
    ensures node in st'.labels && st'.labels[node] == st.labels[node]
  {
  }

  /** Scan the base edges of `node` that stay in the cell and, above the first level, cross sub-cells. */
  method RelaxBorder(net: Network, heap: QueryHeap, allowed: seq<bool>, level: LevelID,
                     ghost id: CellID, ghost source: NodeID, node: NodeID, cost: Cost)
    requires net.ValidGraph() && heap.Valid() && |allowed| == |net.adjacent| == heap.Domain() && 1 <= level < net.levels
    requires node < |allowed| && allowed[node] && net.cell(level, node) == id
    requires Scanning(net, allowed, level, id, source, node, State(heap), State(heap))
    requires node in State(heap).labels && State(heap).labels[node].cost == cost
    modifies heap, heap.positions
    ensures heap.Valid() && Scanning(net, allowed, level, id, source, node, old(State(heap)), State(heap))
    ensures node in State(heap).labels
            && BordersRelaxed(net, allowed, level, id, node, net.internalEnd(level, node), State(heap))
  {
    hide Scanning, QueryHeap.Labels, QueryHeap.Queued;
    var k := 0;
    while k < net.internalEnd(level, node)
      invariant k <= net.internalEnd(level, node) <= |net.adjacent[node]|
      invariant heap.Valid() && Scanning(net, allowed, level, id, source, node, old(State(heap)), State(heap))
      invariant node in State(heap).labels && State(heap).labels[node].cost == cost
      invariant BordersRelaxed(net, allowed, level, id, node, k, State(heap))
      decreases net.internalEnd(level, node) - k
    {
      BorderStep(net, allowed, level, id, source, old(State(heap)), State(heap), node, k);
      var e := net.adjacent[node][k];
      k := k + 1;
      if !allowed[e.target] {
        continue;
      }
      if e.forward && (level == 1 || net.cell(level - 1, node) != net.cell(level - 1, e.target)) {
        RelaxTo(heap, e.target, cost.weight + e.weight, cost.duration + e.duration, cost.distance + e.distance, false);
      }
    }
  }

  lemma NodeExplored(net: Network, allowed: seq<bool>, level: LevelID, id: CellID, st: Search, node: NodeID)
    requires net.ValidGraph() && |allowed| == |net.adjacent| && 1 <= level < net.levels && node < |allowed|
             && node in st.labels
    requires CliquesRelaxed(net, allowed, level, id, node, st)
    requires BordersRelaxed(net, allowed, level, id, node, net.internalEnd(level, node), st)
    ensures Explored(net.Overlay(allowed, level, id), st, node)
  {
    forall a | a in net.Overlay(allowed, level, id) && a.from == node ensures Relaxes(st.labels, a) {
      if a !in net.CliqueArcs(allowed, level, id) {
        var i :| 0 <= i < |net.adjacent[node]| && net.adjacent[node][i].forward
            && EdgeArc(node, net.adjacent[node][i]) == a;
        assert i < net.internalEnd(level, node);
      }
    }
  }

  ghost predicate OthersExplored(overlay: Arcs, st: Search, node: NodeID) {
    forall u :: u in st.Settled() && u != node ==> Explored(overlay, st, u)
  }

  lemma CliquesStayRelaxed(net: Network, allowed: seq<bool>, level: LevelID, id: CellID, st: Search, st': Search,
          node: NodeID)
    requires |allowed| == |net.adjacent| && node in st.Settled() && Improves(st, st')
             && CliquesRelaxed(net, allowed, level, id, node, st)
    ensures CliquesRelaxed(net, allowed, level, id, node, st')
  {
    forall a | a in net.CliqueArcs(allowed, level, id) && a.from == node ensures Relaxes(st'.labels, a) {
      RelaxesPersists(st, st', a);
    }
  }

  lemma AllExplored(overlay: Arcs, st: Search, st': Search, node: NodeID)
    requires Improves(st, st') && OthersExplored(overlay, st, node) && node in st.Settled()
             && Explored(overlay, st', node)
    ensures forall u :: u in st'.Settled() ==> Explored(overlay, st', u)
  {
    forall u | u in st'.Settled() ensures Explored(overlay, st', u) {
      if u != node {
        ExploredPersists(overlay, st, st', u);
      }
    }
  }

  lemma SkipCliques(net: Network, allowed: seq<bool>, level: LevelID, id: CellID, source: NodeID, st: Search,
          node: NodeID)
    requires net.ValidGraph() && |allowed| == |net.adjacent| && (1 < level ==> net.Tabulated(allowed, level - 1))
    requires Scanning(net, allowed, level, id, source, node, st, st)
             && OthersExplored(net.Overlay(allowed, level, id), st, node)
    requires node in st.labels && (level == 1 || st.labels[node].fromClique)
    ensures CliquesRelaxed(net, allowed, level, id, node, st)
  {
    if level != 1 {
      OverlayPositive(net, allowed, level, id);
      CliqueTransitive(net, allowed, level, id);
      PruningLosesNothing(net.Overlay(allowed, level, id), net.CliqueArcs(allowed, level, id), source, st, node);
    }
  }

  /** Scan the last removed node: its sub-cell's row unless a clique arc reached it, then its border edges. */
  method RelaxNode(net: Network, heap: QueryHeap, allowed: seq<bool>, metric: CellMetric, level: LevelID,
                   ghost id: CellID, ghost source: NodeID, node: NodeID, cost: Cost)
    requires net.Valid() && heap.Valid() && |allowed| == |net.adjacent| == heap.Domain() && net.IsCell(level, id)
    requires metric.Value().Fits(net) && (1 < level ==> metric.Value().LevelExact(net, allowed, level - 1))
    requires Scanning(net, allowed, level, id, source, node, State(heap), State(heap))
    requires OthersExplored(net.Overlay(allowed, level, id), State(heap), node)
    requires node in State(heap).labels && State(heap).labels[node].cost == cost
    requires node < |allowed| && allowed[node] && net.cell(level, node) == id
    modifies heap, heap.positions
    ensures heap.Valid() && Scanning(net, allowed, level, id, source, node, old(State(heap)), State(heap))
    ensures forall u :: u in State(heap).Settled() ==> Explored(net.Overlay(allowed, level, id), State(heap), u)
  {
    hide Sound, InsideCell, OthersExplored, QueryHeap.Labels, QueryHeap.Queued, CliquesRelaxed, BordersRelaxed,
         Tables.LevelExact;
    ghost var st0 := State(heap);
    if 1 < level && !heap.GetData(node).fromClique {
      RelaxClique(net, heap, allowed, metric, level, id, source, node, cost);
    } else {
      if 1 < level {
        LevelExactTabulated(net, allowed, metric.Value(), level - 1);
      }
      SkipCliques(net, allowed, level, id, source, st0, node);
    }
    ghost var st1 := State(heap);
    RelaxBorder(net, heap, allowed, level, id, source, node, cost);
    ImprovesTransitive(st0, st1, State(heap));
    CliquesStayRelaxed(net, allowed, level, id, st1, State(heap), node);
    NodeExplored(net, allowed, level, id, State(heap), node);
    AllExplored(net.Overlay(allowed, level, id), st0, State(heap), node);
  }

  ghost predicate Pending(allowed: seq<bool>, destinations: seq<NodeID>, pending: set<NodeID>, st: Search) {
    forall j: nat :: j < |destinations| && AllowedAt(allowed, destinations, j) ==>
      destinations[j] in pending || destinations[j] in st.Settled()
  }

  ghost predicate Searching(net: Network, allowed: seq<bool>, level: LevelID, id: CellID, source: NodeID, st: Search)
    requires |allowed| == |net.adjacent|
  {
    && Invariant(net.Overlay(allowed, level, id), net.CliqueArcs(allowed, level, id), source, st)
    && InsideCell(net, allowed, level, id, st) && (st.Settled() == {} ==> st.queue == {source})
  }

  lemma AfterRemoval(net: Network, allowed: seq<bool>, level: LevelID, id: CellID, source: NodeID, st: Search,
          node: NodeID)
    requires |allowed| == |net.adjacent| && Searching(net, allowed, level, id, source, st) && node in st.queue
    requires forall v :: v in st.queue ==> v in st.labels && st.labels[node].cost.weight <= st.labels[v].cost.weight
    ensures var st' := Search(st.labels, st.queue - {node});
            && Scanning(net, allowed, level, id, source, node, st', st')
            && OthersExplored(net.Overlay(allowed, level, id), st', node)
            && source in st'.Settled() && st'.Settled() == st.Settled() + {node} && node !in st.Settled()
            && node < |allowed| && allowed[node] && net.cell(level, node) == id && node in st.labels
  {
    Settle(net.Overlay(allowed, level, id), net.CliqueArcs(allowed, level, id), source, st, node);
  }

  lemma AfterRelaxation(net: Network, allowed: seq<bool>, level: LevelID, id: CellID, source: NodeID, st: Search,
          node: NodeID, st': Search)
    requires |allowed| == |net.adjacent| && source in st.Settled()
    requires Scanning(net, allowed, level, id, source, node, st, st')
    requires forall u :: u in st'.Settled() ==> Explored(net.Overlay(allowed, level, id), st', u)
    ensures Searching(net, allowed, level, id, source, st') && st'.Settled() == st.Settled()
  {
  }

  /** When the search stops, whether the queue ran empty or every allowed destination was removed, each
      destination's label is its distance in the overlay. */
  lemma StoppedIsExact(net: Network, allowed: seq<bool>, level: LevelID, id: CellID, source: NodeID, st: Search,
                       destinations: seq<NodeID>, pending: set<NodeID>, j: nat)
    requires net.ValidGraph() && |allowed| == |net.adjacent| && source < |allowed| && allowed[source]
    requires Searching(net, allowed, level, id, source, st) && Pending(allowed, destinations, pending, st)
    requires st.queue == {} || pending == {}
    requires j < |destinations|
    ensures IsDistance(net.Overlay(allowed, level, id), source, destinations[j], LabelCost(st, destinations[j]))
  {
    var overlay := net.Overlay(allowed, level, id);
    var t := destinations[j];
    OverlayPositive(net, allowed, level, id);
    if AllowedAt(allowed, destinations, j) {
      FinalLabel(overlay, net.CliqueArcs(allowed, level, id), source, st, t);
    } else {
      forall p ensures !IsPath(overlay, source, p, t) {
        if IsPath(overlay, source, p, t) {
          if p != [] {
            LastArc(overlay, source, p, t);
          }
        }
      }
    }
  }

  ghost function NodesBelow(n: nat): (nodes: set<NodeID>)
    ensures forall v: nat :: v in nodes <==> v < n
  {
    if n == 0 then {} else NodesBelow(n - 1) + {n - 1}
  }

  /** One search: from `source` until the queue is empty or every allowed destination has been removed. */
  method Explore(net: Network, heap: QueryHeap, allowed: seq<bool>, metric: CellMetric, level: LevelID,
          ghost id: CellID,
                 destinations: seq<NodeID>, source: NodeID)
    requires net.Valid() && heap.Valid() && |allowed| == |net.adjacent| == heap.Domain() && net.IsCell(level, id)
    requires metric.Value().Fits(net) && (1 < level ==> metric.Value().LevelExact(net, allowed, level - 1))
    requires source < |allowed| && allowed[source] && net.cell(level, source) == id
    requires forall t :: t in destinations ==> t < |allowed|
    modifies heap, heap.positions
    ensures heap.Valid()
    ensures forall j: nat :: j < |destinations| ==>
              IsDistance(net.Overlay(allowed, level, id), source, destinations[j],
                  LabelCost(State(heap), destinations[j]))
  {
    hide Searching, Scanning, OthersExplored, Explored, QueryHeap.Labels, QueryHeap.Queued, Tables.LevelExact,
         Network.ValidGraph, Network.ValidStorage, Network.ValidPartition;
    var pending: set<NodeID> := {};
    for j := 0 to |destinations|
      invariant forall i: nat :: i < j && AllowedAt(allowed, destinations, i) ==> destinations[i] in pending
    {
      assert destinations[j] in destinations;
      if allowed[destinations[j]] {
        pending := pending + {destinations[j]};
      }
    }
    heap.Clear();
    heap.Insert(source, 0, HeapData(false, 0, 0.0));
    StartSearching(net, allowed, level, id, source, State(heap));
    ghost var nodes := NodesBelow(|allowed|);
    while !heap.Empty() && pending != {}
      invariant heap.Valid() && Searching(net, allowed, level, id, source, State(heap))
      invariant Pending(allowed, destinations, pending, State(heap))
      decreases nodes - State(heap).Settled()
    {
      ghost var st := State(heap);
      var node := heap.DeleteMin();
      AfterRemoval(net, allowed, level, id, source, st, node);
      var cost := Cost(heap.GetKey(node), heap.GetData(node).duration, heap.GetData(node).distance);
      ghost var st' := State(heap);
      RelaxNode(net, heap, allowed, metric, level, id, source, node, cost);
      AfterRelaxation(net, allowed, level, id, source, st', node, State(heap));
      pending := pending - {node};
    }
    forall j: nat | j < |destinations|
      ensures IsDistance(net.Overlay(allowed, level, id), source, destinations[j],
              LabelCost(State(heap), destinations[j]))
    {
      StoppedIsExact(net, allowed, level, id, source, State(heap), destinations, pending, j);
    }
  }

  lemma StartSearching(net: Network, allowed: seq<bool>, level: LevelID, id: CellID, source: NodeID, st: Search)
    requires |allowed| == |net.adjacent| && source < |allowed| && allowed[source] && net.cell(level, source) == id
    requires st.labels == map[source := Label(ZERO, false)] && st.queue == {source}
    ensures Searching(net, allowed, level, id, source, st) && st.Settled() == {}
  {
    StartInvariant(net.Overlay(allowed, level, id), net.CliqueArcs(allowed, level, id), source);
  }

  ghost predicate Written(metric: Tables, position: nat, d: Option<Cost>) {
    && position < |metric.weights| && |metric.durations| == |metric.weights| && |metric.distances| == |metric.weights|
    && metric.Entry(position) == d
    && (d.None? ==> metric.durations[position] == MAXIMAL_EDGE_DURATION
                    && metric.distances[position] == INVALID_EDGE_DISTANCE)
  }

  method WriteEntry(heap: QueryHeap, metric: CellMetric, position: nat, destination: NodeID)
    requires heap.Valid() && destination < heap.Domain()
    requires position < |metric.weights| && |metric.durations| == |metric.weights|
             && |metric.distances| == |metric.weights|
    modifies metric
    ensures metric.Value().SameOutside(old(metric.Value()), position, position + 1)
    ensures Written(metric.Value(), position, LabelCost(State(heap), destination))
  {
    var inserted := heap.WasInserted(destination);
    metric.weights := metric.weights[position := if inserted then Some(heap.GetKey(destination))
        else INVALID_EDGE_WEIGHT];
    metric.durations := metric.durations[position := if inserted then heap.GetData(destination).duration
        else MAXIMAL_EDGE_DURATION];
    metric.distances := metric.distances[position := if inserted then heap.GetData(destination).distance
        else INVALID_EDGE_DISTANCE];
  }

  lemma RowRange(c: CellData, row: nat)
    requires row < |c.sources|
    ensures c.valueOffset <= c.Position(row, 0)
            && c.Position(row, 0) + |c.destinations| == c.Position(row, |c.destinations|) <= c.ValueEnd()
    ensures forall i: nat {:trigger c.Position(row, i)} :: c.Position(row, i) == c.Position(row, 0) + i
  {
    assert |c.destinations| * row + |c.destinations| == |c.destinations| * (row + 1) <= |c.destinations| * |c.sources|;
  }

  lemma RowEnd(c: CellData, row: nat, rows: nat)
    requires row < rows
    ensures c.Position(row, |c.destinations|) <= c.Position(rows, 0)
  {
    assert |c.destinations| * row + |c.destinations| == |c.destinations| * (row + 1) <= |c.destinations| * rows;
  }

  /** The first `j` entries of a row have been written and nothing outside the row has changed. */
  ghost predicate RowWritten(c: CellData, row: nat, j: nat, st: Search, was: Tables, now: Tables) {
    && now.SameOutside(was, c.Position(row, 0), c.Position(row, |c.destinations|)) && j <= |c.destinations|
    && |now.durations| == |now.weights| == |now.distances| && c.Position(row, |c.destinations|) <= |now.weights|
    && forall i: nat :: i < j ==> Written(now, c.Position(row, i), LabelCost(st, c.destinations[i]))
  }

  lemma RowWrittenNext(c: CellData, row: nat, j: nat, st: Search, was: Tables, before: Tables, now: Tables)
    requires row < |c.sources| && j < |c.destinations| && RowWritten(c, row, j, st, was, before)
    requires now.SameOutside(before, c.Position(row, j), c.Position(row, j) + 1)
    requires Written(now, c.Position(row, j), LabelCost(st, c.destinations[j]))
    ensures RowWritten(c, row, j + 1, st, was, now)
  {
    RowRange(c, row);
    hide CellData.Position, CellData.ValueEnd;
    forall i: nat | i < j ensures Written(now, c.Position(row, i), LabelCost(st, c.destinations[i])) {
      assert Written(before, c.Position(row, i), LabelCost(st, c.destinations[i]));
    }
  }

  lemma RowWrittenStart(net: Network, level: LevelID, id: CellID, row: nat, st: Search, was: Tables)
    requires net.IsCell(level, id) && was.Fits(net) && row < |net.storage(level, id).sources|
    ensures RowWritten(net.storage(level, id), row, 0, st, was, was)
  {
    RowRange(net.storage(level, id), row);
  }

  lemma RowEntryInRange(c: CellData, row: nat, j: nat, st: Search, was: Tables, now: Tables)
    requires row < |c.sources| && j < |c.destinations| && RowWritten(c, row, j, st, was, now)
    ensures c.Position(row, j) < |now.weights| == |now.durations| == |now.distances|
  {
    RowRange(c, row);
  }

  /** Write the row of one source: the label of each destination, or the three sentinels when it was not reached. */
  method WriteRow(net: Network, heap: QueryHeap, metric: CellMetric, level: LevelID, id: CellID, row: nat)
    requires heap.Valid() && metric.Value().Fits(net) && net.IsCell(level, id) && row < |net.storage(level, id).sources|
    requires forall t :: t in net.storage(level, id).destinations ==> t < heap.Domain()
    modifies metric
    ensures metric.Value().Fits(net)
    ensures RowWritten(net.storage(level, id), row, |net.storage(level, id).destinations|, State(heap),
            old(metric.Value()), metric.Value())
  {
    hide CellData.Position, CellData.ValueEnd, Tables.SameOutside, Written, RowWritten, QueryHeap.Labels,
         QueryHeap.Queued;
    var c, j := net.storage(level, id), 0;
    RowWrittenStart(net, level, id, row, State(heap), metric.Value());
    while j < |c.destinations|
      invariant j <= |c.destinations| && RowWritten(c, row, j, State(heap), old(metric.Value()), metric.Value())
    {
      ghost var before := metric.Value();
      RowEntryInRange(c, row, j, State(heap), old(metric.Value()), before);
      assert c.destinations[j] in c.destinations;
      WriteEntry(heap, metric, c.Position(row, j), c.destinations[j]);
      RowWrittenNext(c, row, j, State(heap), old(metric.Value()), before, metric.Value());
      j := j + 1;
    }
    FitsKept(net, c, row, State(heap), old(metric.Value()), metric.Value());
  }

  lemma FitsKept(net: Network, c: CellData, row: nat, st: Search, was: Tables, now: Tables)
    requires was.Fits(net) && RowWritten(c, row, |c.destinations|, st, was, now)
    ensures now.Fits(net)
  {
  }

  lemma WrittenRowExact(net: Network, st: Search, was: Tables, metric: Tables, allowed: seq<bool>, level: LevelID,
          id: CellID, row: nat)
    requires net.Valid() && metric.Fits(net) && net.IsCell(level, id) && |allowed| == |net.adjacent|
    requires 1 < level ==> net.Tabulated(allowed, level - 1)
    requires row < |net.storage(level, id).sources| && AllowedAt(allowed, net.storage(level, id).sources, row)
    requires RowWritten(net.storage(level, id), row, |net.storage(level, id).destinations|, st, was, metric)
    requires var c := net.storage(level, id);
             forall j: nat :: j < |c.destinations| ==>
               IsDistance(net.Overlay(allowed, level, id), c.sources[row], c.destinations[j],
                   LabelCost(st, c.destinations[j]))
    ensures metric.RowExact(net, allowed, level, id, row)
  {
    var c := net.storage(level, id);
    assert net.ValidCell(level, id) && c.sources[row] in c.sources;
    forall j: nat | j < |c.destinations|
      ensures c.Position(row, j) < |metric.weights|
              && IsDistance(net.CellArcs(allowed, level, id), c.sources[row], c.destinations[j],
                  metric.Entry(c.Position(row, j)))
    {
      assert Written(metric, c.Position(row, j), LabelCost(st, c.destinations[j]))
             && c.destinations[j] in c.destinations;
      OverlayDistance(net, allowed, level, id, c.sources[row], c.destinations[j], LabelCost(st, c.destinations[j]));
    }
  }

  /** The three values at a position are unchanged. */
  predicate SameAt(pos: nat, was: Tables, now: Tables) {
    && pos < |was.weights| == |now.weights| == |was.durations| == |now.durations| == |was.distances| == |now.distances|
    && now.weights[pos] == was.weights[pos] && now.durations[pos] == was.durations[pos]
    && now.distances[pos] == was.distances[pos]
  }

  ghost predicate RowSame(c: CellData, row: nat, was: Tables, now: Tables) {
    forall j: nat :: j < |c.destinations| ==> SameAt(c.Position(row, j), was, now)
  }

  lemma RowOutside(net: Network, level: LevelID, id: CellID, row: nat, was: Tables, now: Tables, begin: nat, end: nat)
    requires net.IsCell(level, id) && row < |net.storage(level, id).sources|
    requires was.Fits(net) && now.SameOutside(was, begin, end)
    requires var c := net.storage(level, id); c.Position(row, |c.destinations|) <= begin || end <= c.Position(row, 0)
    ensures RowSame(net.storage(level, id), row, was, now)
  {
    RowRange(net.storage(level, id), row);
  }

  lemma RowSameTransitive(c: CellData, row: nat, was: Tables, before: Tables, now: Tables)
    requires RowSame(c, row, was, before) && RowSame(c, row, before, now)
    ensures RowSame(c, row, was, now)
  {
    hide CellData.Position;
    forall j: nat | j < |c.destinations| ensures SameAt(c.Position(row, j), was, now) {
      assert SameAt(c.Position(row, j), was, before) && SameAt(c.Position(row, j), before, now);
    }
  }

  lemma RowSameExact(net: Network, allowed: seq<bool>, level: LevelID, id: CellID, row: nat, was: Tables, now: Tables)
    requires net.IsCell(level, id) && |allowed| == |net.adjacent| && row < |net.storage(level, id).sources|
    requires was.Fits(net) && now.Fits(net) && RowSame(net.storage(level, id), row, was, now)
    requires was.RowExact(net, allowed, level, id, row)
    ensures now.RowExact(net, allowed, level, id, row)
  {
    var c := net.storage(level, id);
    forall j: nat | j < |c.destinations|
      ensures c.Position(row, j) < |now.weights| && now.Entry(c.Position(row, j)) == was.Entry(c.Position(row, j))
    {
      assert SameAt(c.Position(row, j), was, now);
    }
  }

  /** The part of a cell's table that is finished after `rows` rows: exact where the source is allowed, untouched
      elsewhere. */
  ghost predicate Filled(net: Network, allowed: seq<bool>, level: LevelID, id: CellID, rows: nat, was: Tables,
          now: Tables)
    requires net.Valid() && now.Fits(net) && net.IsCell(level, id) && |allowed| == |net.adjacent|
  {
    var c := net.storage(level, id);
    forall row: nat :: row < |c.sources| ==>
      if row < rows && AllowedAt(allowed, c.sources, row) then now.RowExact(net, allowed, level, id, row)
      else RowSame(c, row, was, now)
  }

  lemma RowFilled(net: Network, allowed: seq<bool>, level: LevelID, id: CellID, row: nat, was: Tables, before: Tables,
          now: Tables)
    requires net.Valid() && net.IsCell(level, id) && |allowed| == |net.adjacent|
             && row < |net.storage(level, id).sources|
    requires before.Fits(net) && now.Fits(net) && Filled(net, allowed, level, id, row, was, before)
    requires var c := net.storage(level, id);
             now.SameOutside(before, c.Position(row, 0), c.Position(row, |c.destinations|))
    requires now.RowExact(net, allowed, level, id, row) && AllowedAt(allowed, net.storage(level, id).sources, row)
    ensures Filled(net, allowed, level, id, row + 1, was, now)
  {
    var c := net.storage(level, id);
    forall r: nat | r < |c.sources|
      ensures if r < row + 1 && AllowedAt(allowed, c.sources, r) then now.RowExact(net, allowed, level, id, r)
              else RowSame(c, r, was, now)
    {
      if r != row {
        if r < row {
          RowEnd(c, r, row);
        } else {
          RowEnd(c, row, r);
        }
        RowOutside(net, level, id, r, before, now, c.Position(row, 0), c.Position(row, |c.destinations|));
        if r < row && AllowedAt(allowed, c.sources, r) {
          RowSameExact(net, allowed, level, id, r, before, now);
        } else {
          RowSameTransitive(c, r, was, before, now);
        }
      }
    }
  }

  lemma CellOutside(net: Network, allowed: seq<bool>, level: LevelID, id: CellID, level': LevelID, id': CellID,
          was: Tables, now: Tables)
    requires net.Valid() && net.IsCell(level, id) && net.IsCell(level', id') && (level, id) != (level', id')
             && |allowed| == |net.adjacent|
    requires was.Fits(net) && now.Fits(net)
    requires now.SameOutside(was, net.storage(level, id).valueOffset, net.storage(level, id).ValueEnd())
    requires was.CellExact(net, allowed, level', id')
    ensures now.CellExact(net, allowed, level', id')
  {
    var c, c' := net.storage(level, id), net.storage(level', id');
    assert Apart(c, c');
    forall row: nat | row < |c'.sources| && AllowedAt(allowed, c'.sources, row)
        ensures now.RowExact(net, allowed, level', id', row) {
      RowRange(c', row);
      RowOutside(net, level', id', row, was, now, c.valueOffset, c.ValueEnd());
      RowSameExact(net, allowed, level', id', row, was, now);
    }
  }

  lemma LevelBelowOutside(net: Network, allowed: seq<bool>, level: LevelID, id: CellID, was: Tables, now: Tables)
    requires net.Valid() && net.IsCell(level, id) && |allowed| == |net.adjacent| && was.Fits(net) && now.Fits(net)
    requires now.SameOutside(was, net.storage(level, id).valueOffset, net.storage(level, id).ValueEnd())
    requires 1 < level && was.LevelExact(net, allowed, level - 1)
    ensures now.LevelExact(net, allowed, level - 1)
  {
    var below := level - 1;
    forall id': nat | net.IsCell(below, id') ensures now.CellExact(net, allowed, below, id') {
      CellOutside(net, allowed, level, id, below, id', was, now);
    }
  }

  lemma FindSource(net: Network, level: LevelID, id: CellID, row: nat)
    requires net.Valid() && net.IsCell(level, id) && row < |net.storage(level, id).sources|
    ensures Find(net.storage(level, id).sources, net.storage(level, id).sources[row]) == row
    ensures var u := net.storage(level, id).sources[row]; u < |net.adjacent| && net.cell(level, u) == id
    ensures forall t :: t in net.storage(level, id).destinations ==> t < |net.adjacent|
  {
    assert net.ValidCell(level, id);
    assert net.storage(level, id).sources[row] in net.storage(level, id).sources;
  }

  /** Search from one allowed source and write its row. */
  method CustomizeSource(net: Network, heap: QueryHeap, allowed: seq<bool>, metric: CellMetric, level: LevelID,
          id: CellID, source: NodeID)
    requires net.Valid() && heap.Valid() && |allowed| == |net.adjacent| == heap.Domain() && net.IsCell(level, id)
    requires metric.Value().Fits(net) && (1 < level ==> metric.Value().LevelExact(net, allowed, level - 1))
    requires source in net.storage(level, id).sources && source < |allowed| && allowed[source]
    modifies heap, heap.positions, metric
    ensures heap.Valid() && metric.Value().Fits(net)
    ensures var c := net.storage(level, id);
            var row := Find(c.sources, source);
            && row < |c.sources| && metric.Value().RowExact(net, allowed, level, id, row)
            && metric.Value().SameOutside(old(metric.Value()), c.Position(row, 0), c.Position(row, |c.destinations|))
  {
    var c := net.storage(level, id);
    var row := Find(c.sources, source);
    FindSource(net, level, id, row);
    if 1 < level {
      LevelExactTabulated(net, allowed, metric.Value(), level - 1);
    }
    hide *;
    Explore(net, heap, allowed, metric, level, id, c.destinations, source);
    WriteRow(net, heap, metric, level, id, row);
    WrittenRowExact(net, State(heap), old(metric.Value()), metric.Value(), allowed, level, id, row);
  }

  lemma FilledStart(net: Network, allowed: seq<bool>, level: LevelID, id: CellID, was: Tables)
    requires net.Valid() && was.Fits(net) && net.IsCell(level, id) && |allowed| == |net.adjacent|
    ensures Filled(net, allowed, level, id, 0, was, was)
  {
    var c := net.storage(level, id);
    forall row: nat | row < |c.sources| ensures RowSame(c, row, was, was) {
      RowRange(c, row);
    }
  }

  lemma SourceOutside(net: Network, level: LevelID, id: CellID, row: nat, was: Tables, before: Tables, now: Tables)
    requires net.IsCell(level, id) && row < |net.storage(level, id).sources|
    requires var c := net.storage(level, id);
             && now.SameOutside(before, c.Position(row, 0), c.Position(row, |c.destinations|))
             && before.SameOutside(was, c.valueOffset, c.ValueEnd())
    ensures now.SameOutside(was, net.storage(level, id).valueOffset, net.storage(level, id).ValueEnd())
    ensures now.SameOutside(before, net.storage(level, id).valueOffset, net.storage(level, id).ValueEnd())
  {
    RowRange(net.storage(level, id), row);
  }

  lemma SkippedRow(net: Network, allowed: seq<bool>, level: LevelID, id: CellID, row: nat, was: Tables, now: Tables)
    requires net.Valid() && now.Fits(net) && net.IsCell(level, id) && |allowed| == |net.adjacent|
    requires row < |net.storage(level, id).sources| && Filled(net, allowed, level, id, row, was, now)
    requires !AllowedAt(allowed, net.storage(level, id).sources, row)
    ensures Filled(net, allowed, level, id, row + 1, was, now)
  {
  }

  /** Fill one cell's table from the tables of the level below. Rows of excluded sources are left as they were. */
  method CustomizeCell(net: Network, heap: QueryHeap, allowed: seq<bool>, metric: CellMetric, level: LevelID,
          id: CellID)
    requires net.Valid() && heap.Valid() && |allowed| == |net.adjacent| == heap.Domain() && net.IsCell(level, id)
    requires metric.Value().Fits(net) && (1 < level ==> metric.Value().LevelExact(net, allowed, level - 1))
    modifies heap, heap.positions, metric
    ensures heap.Valid() && metric.Value().Fits(net)
    ensures Filled(net, allowed, level, id, |net.storage(level, id).sources|, old(metric.Value()), metric.Value())
    ensures metric.Value().SameOutside(old(metric.Value()), net.storage(level, id).valueOffset,
            net.storage(level, id).ValueEnd())
  {
    hide QueryHeap.Labels, QueryHeap.Queued, CellData.Position, CellData.ValueEnd, Tables.LevelExact, Tables.Fits,
         Filled,
         Network.ValidGraph, Network.ValidStorage, Network.ValidPartition, QueryHeap.Valid;
    var c := net.storage(level, id);
    var row := 0;
    FilledStart(net, allowed, level, id, metric.Value());
    while row < |c.sources|
      invariant row <= |c.sources| && heap.Valid() && metric.Value().Fits(net)
      invariant 1 < level ==> metric.Value().LevelExact(net, allowed, level - 1)
      invariant metric.Value().SameOutside(old(metric.Value()), c.valueOffset, c.ValueEnd())
      invariant Filled(net, allowed, level, id, row, old(metric.Value()), metric.Value())
      decreases |c.sources| - row
    {
      var source := c.sources[row];
      FindSource(net, level, id, row);
      row := row + 1;
      if !allowed[source] {
        SkippedRow(net, allowed, level, id, row - 1, old(metric.Value()), metric.Value());
        continue;
      }
      ghost var before := metric.Value();
      CustomizeSource(net, heap, allowed, metric, level, id, source);
      SourceOutside(net, level, id, row - 1, old(metric.Value()), before, metric.Value());
      RowFilled(net, allowed, level, id, row - 1, old(metric.Value()), before, metric.Value());
      if 1 < level {
        LevelBelowOutside(net, allowed, level, id, before, metric.Value());
      }
    }
  }

  lemma FilledExact(net: Network, allowed: seq<bool>, level: LevelID, id: CellID, was: Tables, now: Tables)
    requires net.Valid() && now.Fits(net) && net.IsCell(level, id) && |allowed| == |net.adjacent|
    requires Filled(net, allowed, level, id, |net.storage(level, id).sources|, was, now)
    ensures now.CellExact(net, allowed, level, id)
  {
  }

  /** All cells of the lower levels and the cells `done` of `level` are exact. */
  ghost predicate Customized(net: Network, allowed: seq<bool>, level: LevelID, done: set<CellID>, m: Tables)
    requires net.Valid() && m.Fits(net) && |allowed| == |net.adjacent|
  {
    forall l: nat, id: nat {:trigger net.IsCell(l, id)} ::
      net.IsCell(l, id) && (l < level || (l == level && id in done)) ==> m.CellExact(net, allowed, l, id)
  }

  lemma CustomizedNext(net: Network, allowed: seq<bool>, level: LevelID, id: CellID, done: set<CellID>, was: Tables,
          now: Tables)
    requires net.Valid() && was.Fits(net) && now.Fits(net) && |allowed| == |net.adjacent| && net.IsCell(level, id)
    requires Customized(net, allowed, level, done, was) && now.CellExact(net, allowed, level, id)
    requires now.SameOutside(was, net.storage(level, id).valueOffset, net.storage(level, id).ValueEnd())
    ensures Customized(net, allowed, level, done + {id}, now)
  {
    hide Tables.SameOutside, Tables.CellExact, Tables.Fits, Network.Valid;
    forall l: nat, i: nat {:trigger net.IsCell(l, i)} | net.IsCell(l, i)
        && (l < level || (l == level && i in done + {id}))
      ensures now.CellExact(net, allowed, l, i)
    {
      if (l, i) != (level, id) {
        CellOutside(net, allowed, level, id, l, i, was, now);
      }
    }
  }

  /** The order in which the parallel loop takes the cells of a level: every cell, in any order. */
  predicate IsSchedule(net: Network, level: LevelID, order: seq<CellID>) {
    && (forall k: nat :: k < |order| ==> order[k] < net.numberOfCells(level))
    && (forall id: nat :: id < net.numberOfCells(level) ==> id in order)
    && (forall j, k :: 0 <= j < k < |order| ==> order[j] != order[k])
  }

  function Elements(order: seq<CellID>): set<CellID> {
    set id | id in order
  }

  lemma AllScheduled(net: Network, allowed: seq<bool>, level: LevelID, order: seq<CellID>, m: Tables)
    requires net.Valid() && m.Fits(net) && |allowed| == |net.adjacent| && IsSchedule(net, level, order)
    requires Customized(net, allowed, level, Elements(order), m)
    ensures Customized(net, allowed, level + 1, {}, m)
  {
    hide Tables.CellExact, Tables.Fits, Network.Valid;
  }

  /** The position is in the row of an allowed source of some cell. */
  ghost predicate Computed(net: Network, allowed: seq<bool>, pos: nat) {
    exists level: nat, id: nat, row: nat, column: nat :: ComputedAt(net, allowed, level, id, row, column, pos)
  }

  predicate ComputedAt(net: Network, allowed: seq<bool>, level: LevelID, id: CellID, row: nat, column: nat, pos: nat) {
    net.IsCell(level, id) && var c := net.storage(level, id);
    row < |c.sources| && column < |c.destinations| && AllowedAt(allowed, c.sources, row)
        && c.Position(row, column) == pos
  }

  /** Every other position keeps its three values. */
  ghost predicate OthersKept(net: Network, allowed: seq<bool>, was: Tables, now: Tables) {
    && |now.weights| == |was.weights| == |now.durations| == |was.durations| == |now.distances| == |was.distances|
    && forall pos: nat :: pos < |was.weights| && !Computed(net, allowed, pos) ==> SameAt(pos, was, now)
  }

  lemma OthersKeptNext(net: Network, allowed: seq<bool>, level: LevelID, id: CellID, first: Tables, was: Tables,
          now: Tables)
    requires net.Valid() && |allowed| == |net.adjacent| && net.IsCell(level, id) && was.Fits(net) && now.Fits(net)
    requires OthersKept(net, allowed, first, was)
    requires Filled(net, allowed, level, id, |net.storage(level, id).sources|, was, now)
    requires now.SameOutside(was, net.storage(level, id).valueOffset, net.storage(level, id).ValueEnd())
    ensures OthersKept(net, allowed, first, now)
  {
    hide Network.Valid, Computed, CellData.Position, Tables.RowExact;
    var c := net.storage(level, id);
    forall pos: nat | pos < |was.weights| && !Computed(net, allowed, pos) ensures SameAt(pos, first, now) {
      if c.valueOffset <= pos < c.ValueEnd() {
        var row, column := c.EntryAt(pos);
        NotComputed(net, allowed, level, id, row, column, pos);
        assert RowSame(c, row, was, now);
      }
    }
  }

  lemma NotComputed(net: Network, allowed: seq<bool>, level: LevelID, id: CellID, row: nat, column: nat, pos: nat)
    requires !Computed(net, allowed, pos) && net.IsCell(level, id)
    requires var c := net.storage(level, id); row < |c.sources| && column < |c.destinations|
                                              && c.Position(row, column) == pos
    ensures !AllowedAt(allowed, net.storage(level, id).sources, row)
  {
    assert !ComputedAt(net, allowed, level, id, row, column, pos);
  }

  /** One level, its cells taken in any order. */
  method CustomizeLevel(net: Network, heap: QueryHeap, allowed: seq<bool>, metric: CellMetric, level: LevelID,
          order: seq<CellID>)
    requires net.Valid() && heap.Valid() && |allowed| == |net.adjacent| == heap.Domain() && metric.Value().Fits(net)
    requires 1 <= level < net.levels && IsSchedule(net, level, order)
             && Customized(net, allowed, level, {}, metric.Value())
    modifies heap, heap.positions, metric
    ensures heap.Valid() && metric.Value().Fits(net) && Customized(net, allowed, level + 1, {}, metric.Value())
    ensures OthersKept(net, allowed, old(metric.Value()), metric.Value())
  {
    hide Network.Valid, Tables.Fits, Tables.SameOutside, Filled, QueryHeap.Labels, QueryHeap.Queued, QueryHeap.Valid,
         Tables.LevelExact, Tables.CellExact, Customized, OthersKept;
    OthersKeptStart(net, allowed, metric.Value());
    ghost var done: set<CellID> := {};
    var k := 0;
    while k < |order|
      invariant k <= |order| && done == set i | 0 <= i < k :: order[i]
      invariant heap.Valid() && metric.Value().Fits(net) && Customized(net, allowed, level, done, metric.Value())
      invariant OthersKept(net, allowed, old(metric.Value()), metric.Value())
    {
      ghost var was := metric.Value();
      if 1 < level {
        LowerLevel(net, allowed, level, done, was, level - 1);
      }
      CustomizeCell(net, heap, allowed, metric, level, order[k]);
      FilledExact(net, allowed, level, order[k], was, metric.Value());
      CustomizedNext(net, allowed, level, order[k], done, was, metric.Value());
      OthersKeptNext(net, allowed, level, order[k], old(metric.Value()), was, metric.Value());
      done := done + {order[k]};
      k := k + 1;
    }
    assert done == Elements(order);
    AllScheduled(net, allowed, level, order, metric.Value());
  }

  lemma OthersKeptStart(net: Network, allowed: seq<bool>, m: Tables)
    requires m.Fits(net)
    ensures OthersKept(net, allowed, m, m)
  {
  }

  lemma OthersKeptTransitive(net: Network, allowed: seq<bool>, a: Tables, b: Tables, c: Tables)
    requires OthersKept(net, allowed, a, b) && OthersKept(net, allowed, b, c)
    ensures OthersKept(net, allowed, a, c)
  {
    hide Computed;
  }

  lemma LowerLevel(net: Network, allowed: seq<bool>, level: LevelID, done: set<CellID>, m: Tables, l: LevelID)
    requires net.Valid() && m.Fits(net) && |allowed| == |net.adjacent| && 1 <= l < level && l < net.levels
    requires Customized(net, allowed, level, done, m)
    ensures m.LevelExact(net, allowed, l)
  {
    hide Network.Valid, Tables.Fits, Tables.CellExact;
    forall id: nat | net.IsCell(l, id) ensures m.CellExact(net, allowed, l, id) {
    }
  }

  /** The three values of an entry, in terms of the edges of the base graph: no walk from `s` to `t` stays inside the
      cell and the values are sentinels, or they are the sums over a walk that is first by weight, then duration,
      then distance. */
  ghost predicate HoldsBestWalk(net: Network, allowed: seq<bool>, level: LevelID, id: CellID, s: NodeID, t: NodeID,
          weight: EdgeWeight, duration: int, distance: real)
    requires |allowed| == |net.adjacent|
  {
    match weight
    case None =>
      && duration == 0x7fff_ffff && distance == 340282346638528859811704183484516925440.0
      && forall w :: !Walks(net, allowed, level, id, s, w, t)
    case Some(x) =>
      && (exists w :: Walks(net, allowed, level, id, s, w, t) && var edges := WalkEdges(net, s, w);
            SumWeight(edges) == x && SumDuration(edges) == duration && SumDistance(edges) == distance)
      && forall w :: Walks(net, allowed, level, id, s, w, t) ==>
           var edges := WalkEdges(net, s, w);
           && x <= SumWeight(edges)
           && (x == SumWeight(edges) ==> duration <= SumDuration(edges))
           && (x == SumWeight(edges) && duration == SumDuration(edges) ==> distance <= SumDistance(edges))
  }

  lemma DistanceIsBestWalk(net: Network, allowed: seq<bool>, level: LevelID, id: CellID, s: NodeID, t: NodeID,
          m: Tables,
          pos: nat)
    requires |allowed| == |net.adjacent| && pos < |m.weights| && |m.durations| == |m.weights| == |m.distances|
    requires IsDistance(net.CellArcs(allowed, level, id), s, t, m.Entry(pos)) && m.Marked(pos)
    ensures HoldsBestWalk(net, allowed, level, id, s, t, m.weights[pos], m.durations[pos], m.distances[pos])
  {
    hide Network.CellArcs, IsPath, PathCost, WalkEdges;
    var arcs := net.CellArcs(allowed, level, id);
    match m.weights[pos]
    case None =>
      forall w ensures !Walks(net, allowed, level, id, s, w, t) {
        if Walks(net, allowed, level, id, s, w, t) {
          var p := WalkIsPath(net, allowed, level, id, s, w, t);
        }
      }
    case Some(x) =>
      var c := m.Entry(pos).value;
      var p :| IsPath(arcs, s, p, t) && PathCost(p) == c;
      var w := PathIsWalk(net, allowed, level, id, s, p, t);
      forall w | Walks(net, allowed, level, id, s, w, t)
        ensures var edges := WalkEdges(net, s, w);
                && x <= SumWeight(edges)
                && (x == SumWeight(edges) ==> c.duration <= SumDuration(edges))
                && (x == SumWeight(edges) && c.duration == SumDuration(edges) ==> c.distance <= SumDistance(edges))
      {
        var q := WalkIsPath(net, allowed, level, id, s, w, t);
        assert AtMost(c, PathCost(q));
      }
  }

  /** What an exact table says of one entry, in terms of walks inside the cell; rows stand one after the other from the
      cell's offset on. */
  lemma ExactEntry(net: Network, allowed: seq<bool>, level: LevelID, id: CellID, m: Tables, row: nat, column: nat)
    requires net.Valid() && m.Fits(net) && net.IsCell(level, id) && |allowed| == |net.adjacent|
             && m.LevelExact(net, allowed, level)
    requires var c := net.storage(level, id);
             row < |c.sources| && column < |c.destinations| && AllowedAt(allowed, c.sources, row)
    ensures var c := net.storage(level, id);
            var (s, t) := (c.sources[row], c.destinations[column]);
            var arcs := net.CellArcs(allowed, level, id);
            var pos := c.valueOffset + |c.destinations| * row + column;
            && pos < |m.weights|
            && (m.weights[pos] == INVALID_EDGE_WEIGHT <==> !Connected(arcs, s, t))
            && IsDistance(arcs, s, t, m.Entry(pos))
            && HoldsBestWalk(net, allowed, level, id, s, t, m.weights[pos], m.durations[pos], m.distances[pos])
  {
    hide IsDistance, HoldsBestWalk;
    assert m.CellExact(net, allowed, level, id) && m.RowExact(net, allowed, level, id, row);
    var c := net.storage(level, id);
    var pos := c.Position(row, column);
    DistanceOfConnected(net.CellArcs(allowed, level, id), c.sources[row], c.destinations[column], m.Entry(pos));
    DistanceIsBestWalk(net, allowed, level, id, c.sources[row], c.destinations[column], m, pos);
  }

  /** Every entry of every allowed source of a cell. */
  ghost predicate HoldsBestWalks(net: Network, allowed: seq<bool>, level: LevelID, id: CellID, m: Tables)
    requires |allowed| == |net.adjacent|
  {
    var c := net.storage(level, id);
    forall row: nat, column: nat ::
      row < |c.sources| && column < |c.destinations| && c.sources[row] < |allowed| && allowed[c.sources[row]]
      ==> EntryHoldsBestWalk(net, allowed, level, id, m, row, column)
  }

  ghost predicate EntryHoldsBestWalk(net: Network, allowed: seq<bool>, level: LevelID, id: CellID, m: Tables, row: nat,
          column: nat)
    requires |allowed| == |net.adjacent|
  {
    var c := net.storage(level, id);
    var pos := c.valueOffset + |c.destinations| * row + column;
    && row < |c.sources| && column < |c.destinations|
    && pos < |m.weights| && pos < |m.durations| && pos < |m.distances|
    && HoldsBestWalk(net, allowed, level, id, c.sources[row], c.destinations[column], m.weights[pos], m.durations[pos],
         m.distances[pos])
  }

  lemma CellHoldsBestWalks(net: Network, allowed: seq<bool>, level: LevelID, id: CellID, m: Tables)
    requires net.Valid() && m.Fits(net) && net.IsCell(level, id) && |allowed| == |net.adjacent|
             && m.LevelExact(net, allowed, level)
    ensures HoldsBestWalks(net, allowed, level, id, m)
  {
    hide Network.Valid, HoldsBestWalk, IsDistance, Tables.LevelExact;
    var c := net.storage(level, id);
    forall row: nat, column: nat |
      row < |c.sources| && column < |c.destinations| && c.sources[row] < |allowed| && allowed[c.sources[row]]
      ensures EntryHoldsBestWalk(net, allowed, level, id, m, row, column)
    {
      ExactEntry(net, allowed, level, id, m, row, column);
    }
  }

  /** The whole customization, bottom up over the levels, the cells of each level in the order of its schedule:
      afterwards every entry of every allowed source is the distance inside its cell, and INVALID where there is no
      path; in terms of the base graph, it holds the best walk. */
  method Customize(net: Network, allowed: seq<bool>, metric: CellMetric, schedule: LevelID -> seq<CellID>)
    requires net.Valid() && |allowed| == |net.adjacent| && metric.Value().Fits(net)
    requires forall level: nat :: 1 <= level < net.levels ==> IsSchedule(net, level, schedule(level))
    modifies metric
    ensures metric.Value().Fits(net)
    ensures forall level: nat :: 1 <= level < net.levels ==> metric.Value().LevelExact(net, allowed, level)
    ensures forall level: nat, id :: 1 <= level < net.levels && net.IsCell(level, id)
                                     ==> HoldsBestWalks(net, allowed, level, id, metric.Value())
    ensures OthersKept(net, allowed, old(metric.Value()), metric.Value())
  {
    hide HoldsBestWalks, Network.Valid, Tables.Fits, QueryHeap.Labels, QueryHeap.Queued, QueryHeap.Valid,
         Tables.LevelExact, OthersKept,
         Tables.CellExact, IsSchedule;
    var heap := new QueryHeap(|net.adjacent|);
    OthersKeptStart(net, allowed, metric.Value());
    var level := 1;
    while level < net.levels
      invariant 1 <= level && heap.Valid() && metric.Value().Fits(net) && heap.Domain() == |allowed| && fresh(heap)
                && fresh(heap.positions)
      invariant Customized(net, allowed, level, {}, metric.Value())
      invariant OthersKept(net, allowed, old(metric.Value()), metric.Value())
    {
      ghost var was := metric.Value();
      CustomizeLevel(net, heap, allowed, metric, level, schedule(level));
      OthersKeptTransitive(net, allowed, old(metric.Value()), was, metric.Value());
      level := level + 1;
    }
    forall l: nat | 1 <= l < net.levels ensures metric.Value().LevelExact(net, allowed, l) {
      LowerLevel(net, allowed, level, {}, metric.Value(), l);
    }
    forall l: nat, id | 1 <= l < net.levels && net.IsCell(l, id)
      ensures HoldsBestWalks(net, allowed, l, id, metric.Value())
    {
      CellHoldsBestWalks(net, allowed, l, id, metric.Value());
    }
  }

  lemma ComputedExact(net: Network, allowed: seq<bool>, m: Tables, level: LevelID, id: CellID, row: nat, column: nat,
          pos: nat)
    requires net.Valid() && m.Fits(net) && |allowed| == |net.adjacent|
             && ComputedAt(net, allowed, level, id, row, column, pos)
    requires m.LevelExact(net, allowed, level) && pos < |m.weights|
    ensures var c := net.storage(level, id);
            IsDistance(net.CellArcs(allowed, level, id), c.sources[row], c.destinations[column], m.Entry(pos))
            && m.Marked(pos)
  {
    hide Network.Valid, Tables.Fits, CellData.Position, IsDistance;
    assert m.CellExact(net, allowed, level, id) && m.RowExact(net, allowed, level, id, row);
  }

  /** Two customizations of the same tables agree on every value, whatever schedules they follow: the positions that
      are computed hold distances, which are unique, or sentinels, and the others are kept. */
  lemma ScheduleIndependent(net: Network, allowed: seq<bool>, was: Tables, one: Tables, other: Tables, pos: nat)
    requires net.Valid() && was.Fits(net) && one.Fits(net) && other.Fits(net) && |allowed| == |net.adjacent|
    requires forall level: nat :: 1 <= level < net.levels
                                  ==> one.LevelExact(net, allowed, level) && other.LevelExact(net, allowed, level)
    requires OthersKept(net, allowed, was, one) && OthersKept(net, allowed, was, other) && pos < |was.weights|
    ensures one.Entry(pos) == other.Entry(pos) && SameAt(pos, one, other)
  {
    hide Network.Valid, CellData.Position, IsDistance, Tables.LevelExact;
    if Computed(net, allowed, pos) {
      var level: nat, id: nat, row: nat, column: nat :| ComputedAt(net, allowed, level, id, row, column, pos);
      var c := net.storage(level, id);
      ComputedExact(net, allowed, one, level, id, row, column, pos);
      ComputedExact(net, allowed, other, level, id, row, column, pos);
      DistanceUnique(net.CellArcs(allowed, level, id), c.sources[row], c.destinations[column], one.Entry(pos),
          other.Entry(pos));
    }
  }
}
