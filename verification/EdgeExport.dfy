/** Listing the edges of a contracted graph for the query graph. */
module EdgeExport {
  import opened Options
  import opened Paths
  import Sorting
  import opened ContractorAdaptors
  import opened ContractedEdges

  /** Adjacency lists; the records of node u have u as their source. */
  type Graph = seq<seq<ContractorEdge>>

  predicate ValidGraph(graph: Graph) {
    forall u: nat, k: nat :: u < |graph| && k < |graph[u]| ==> graph[u][k].source == u
  }

  /** A signed bit-field of 30 bits. */
  function Signed30(v: int): int {
    if v % 0x4000_0000 < 0x2000_0000 then v % 0x4000_0000 else v % 0x4000_0000 - 0x4000_0000
  }

  function Export(node: NodeID, e: ContractorEdge): QueryEdge {
    QueryEdge(node, e.target, e.id % 0x8000_0000, e.shortcut, e.weight, Signed30(e.duration), e.forward, e.backward,
        e.distance)
  }

  function NumberOfEdges(graph: Graph): nat {
    if graph == [] then 0 else NumberOfEdges(graph[..|graph| - 1]) + |graph[|graph| - 1]|
  }

  function Row(node: NodeID, row: seq<ContractorEdge>): (edges: seq<QueryEdge>)
    ensures |edges| == |row|
  {
    seq(|row|, (k: int) requires 0 <= k < |row| => Export(node, row[k]))
  }

  function Listed(graph: Graph): (edges: seq<QueryEdge>)
    ensures |edges| == NumberOfEdges(graph)
  {
    if graph == [] then [] else Listed(graph[..|graph| - 1]) + Row(|graph| - 1, graph[|graph| - 1])
  }

  predicate EndsAtMost(a: QueryEdge, b: QueryEdge) {
    a.source < b.source || (a.source == b.source && a.target <= b.target)
  }

  lemma {:induction false} PrefixFits(graph: Graph, n: nat)
    requires n <= |graph|
    ensures NumberOfEdges(graph[..n]) <= NumberOfEdges(graph)
    decreases |graph| - n
  {
    if n < |graph| {
      PrefixFits(graph, n + 1);
      assert graph[..n + 1][..n] == graph[..n];
    } else {
      assert graph[..n] == graph;
    }
  }

  lemma NextRow(graph: Graph, n: nat)
    requires n < |graph|
    ensures Listed(graph[..n + 1]) == Listed(graph[..n]) + Row(n, graph[n])
    ensures NumberOfEdges(graph[..n]) + |graph[n]| <= NumberOfEdges(graph)
  {
    assert graph[..n + 1][..n] == graph[..n];
    PrefixFits(graph, n + 1);
  }

  /** `toEdges`: fill a vector of the known size, one adjacency list after the other, then sort it. */
  method ToEdges(graph: Graph) returns (edges: seq<QueryEdge>)
    ensures Sorting.IsSorting(Listed(graph), edges, EndsAtMost)
  {
    var filled := new QueryEdge[NumberOfEdges(graph)](_ => QueryEdge(0, 0, 0, false, 0, 0, false, false, 0.0));
    var edgeIndex := 0;
    for node := 0 to |graph|
      invariant edgeIndex == NumberOfEdges(graph[..node]) <= filled.Length
                && filled[..edgeIndex] == Listed(graph[..node])
    {
      NextRow(graph, node);
      ghost var start := edgeIndex;
      for k := 0 to |graph[node]|
        invariant edgeIndex == start + k && filled[..start] == Listed(graph[..node])
        invariant filled[start..edgeIndex] == Row(node, graph[node])[..k]
      {
        filled[edgeIndex] := Export(node, graph[node][k]);
        edgeIndex := edgeIndex + 1;
      }
      assert filled[..edgeIndex] == filled[..start] + filled[start..edgeIndex];
    }
    assert graph[..|graph|] == graph;
    assert filled[..] == filled[..edgeIndex];
    edges := Sorting.ParallelSort(filled[..], EndsAtMost);
  }

  predicate Gives(e: QueryEdge, a: Arc) {
    a.cost == Cost(e.weight, 0, 0.0)
    && ((e.forward && e.source == a.from && e.target == a.to) || (e.backward && e.source == a.to && e.target == a.from))
  }

  /** The arcs of an edge list, with their weights. */
  ghost predicate QueryArc(edges: seq<QueryEdge>, a: Arc) {
    exists e :: e in edges && Gives(e, a)
  }

  ghost function QueryArcs(edges: seq<QueryEdge>): Arcs {
    iset a | QueryArc(edges, a)
  }

  /** The records of a graph in one list. */
  function Records(graph: Graph): seq<ContractorEdge> {
    if graph == [] then [] else Records(graph[..|graph| - 1]) + graph[|graph| - 1]
  }

  lemma {:induction false} ListedRecords(graph: Graph)
    requires ValidGraph(graph)
    ensures |Listed(graph)| == |Records(graph)|
    ensures forall k :: 0 <= k < |Records(graph)|
                        ==> Listed(graph)[k] == Export(Records(graph)[k].source, Records(graph)[k])
  {
    if graph != [] {
      ListedRecords(graph[..|graph| - 1]);
    }
  }

  /** What a query edge keeps of a record. Only the duration and the turn id are narrowed: to 30 bits with sign, and
      to 31 bits. */
  predicate Keeps(e: QueryEdge, r: ContractorEdge) {
    && e.source == r.source && e.target == r.target && e.shortcut == r.shortcut
    && e.weight == r.weight && e.distance == r.distance && e.forward == r.forward && e.backward == r.backward
    && 0 <= e.turnId < 0x8000_0000 && (r.id - e.turnId) % 0x8000_0000 == 0
    && -0x2000_0000 <= e.duration < 0x2000_0000 && (r.duration - e.duration) % 0x4000_0000 == 0
  }

  ghost predicate KeepsEach(listed: seq<QueryEdge>, records: seq<ContractorEdge>) {
    |listed| == |records| && forall k :: 0 <= k < |records| ==> Keeps(listed[k], records[k])
  }

  lemma ExportKeeps(r: ContractorEdge)
    ensures Keeps(Export(r.source, r), r)
  {
  }

  ghost predicate SortedByEnds(edges: seq<QueryEdge>) {
    forall i, j :: 0 <= i < j < |edges|
                   ==> edges[i].source < edges[j].source
                       || (edges[i].source == edges[j].source && edges[i].target <= edges[j].target)
  }

  /** The exported list is, up to its order, the list of the graph's records, and it is sorted by source and then
      target, whichever way the sort orders parallel edges. */
  lemma ExportedEdges(graph: Graph, edges: seq<QueryEdge>) returns (listed: seq<QueryEdge>)
    requires ValidGraph(graph) && Sorting.IsSorting(Listed(graph), edges, EndsAtMost)
    ensures multiset(listed) == multiset(edges) && KeepsEach(listed, Records(graph))
    ensures SortedByEnds(edges)
  {
    hide Export, ValidGraph, Listed, Records, Keeps;
    listed := Listed(graph);
    var records := Records(graph);
    ListedRecords(graph);
    forall k | 0 <= k < |records| ensures Keeps(listed[k], records[k]) {
      ExportKeeps(records[k]);
    }
    forall i, j | 0 <= i < j < |edges| ensures edges[i].source < edges[j].source
                  || (edges[i].source == edges[j].source && edges[i].target <= edges[j].target) {
      assert EndsAtMost(edges[i], edges[j]);
    }
  }

  lemma ExportGives(r: ContractorEdge, a: Arc)
    ensures Gives(Export(r.source, r), a)
            <==> (Selects(r, a.from, a.to, true) || Selects(r, a.to, a.from, false)) && a.cost == WeightCost(r.weight)
  {
  }

  lemma ListedArcs(graph: Graph, a: Arc)
    requires ValidGraph(graph)
    ensures QueryArc(Listed(graph), a) <==> OutputArc(Records(graph), a)
  {
    hide Export, Gives, Selects, WeightCost, Listed, Records, ValidGraph;
    var listed, records := Listed(graph), Records(graph);
    ListedRecords(graph);
    if QueryArc(listed, a) {
      var e :| e in listed && Gives(e, a);
      var k :| 0 <= k < |listed| && listed[k] == e;
      ExportGives(records[k], a);
      assert records[k] in records;
    }
    if OutputArc(records, a) {
      var r :| r in records && (Selects(r, a.from, a.to, true) || Selects(r, a.to, a.from, false))
          && a.cost == WeightCost(r.weight);
      var k :| 0 <= k < |records| && records[k] == r;
      ExportGives(r, a);
      assert listed[k] in listed;
    }
  }

  /** Exporting keeps every arc and its weight. */
  lemma ExportKeepsArcs(graph: Graph, edges: seq<QueryEdge>)
    requires ValidGraph(graph) && Sorting.IsSorting(Listed(graph), edges, EndsAtMost)
    ensures QueryArcs(edges) == OutputArcs(Records(graph))
  {
    hide Gives, Listed, Records, ValidGraph, OutputArc, EndsAtMost;
    Sorting.SortingKeepsLength(Listed(graph), edges, EndsAtMost);
    forall a ensures QueryArc(edges, a) <==> OutputArc(Records(graph), a) {
      ListedArcs(graph, a);
    }
  }

  /** From the extracted edges through the contractor's graph to the query edges no shortest-path weight changes, when
      the graph holds the converted edges. */
  lemma PipelinePreservesDistances(input: seq<InputEdge>, converted: seq<ContractorEdge>, graph: Graph,
          edges: seq<QueryEdge>,
                                   s: NodeID, t: NodeID, d: Option<Cost>)
    requires IsConversion(input, converted) && ValidGraph(graph) && multiset(Records(graph)) == multiset(converted)
    requires Sorting.IsSorting(Listed(graph), edges, EndsAtMost)
    ensures IsDistance(InputArcs(input), s, t, d) <==> IsDistance(QueryArcs(edges), s, t, d)
  {
    ExportKeepsArcs(graph, edges);
    ConversionPreservesDistances(input, converted, s, t, d);
    SameRecords(Records(graph), converted);
  }

  lemma SameRecords(a: seq<ContractorEdge>, b: seq<ContractorEdge>)
    requires multiset(a) == multiset(b)
    ensures OutputArcs(a) == OutputArcs(b)
  {
    forall e ensures e in a <==> e in b {
      assert e in multiset(a) <==> e in multiset(b);
    }
  }

  /** The bit-field of a query edge holds a duration exactly when it fits 30 signed bits. */
  lemma DurationKept(node: NodeID, e: ContractorEdge)
    ensures Export(node, e).duration == e.duration <==> -0x2000_0000 <= e.duration < 0x2000_0000
  {
  }
}
