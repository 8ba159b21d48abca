/** Contraction with exclude filters: the non-core edges go into the container once, and the core is contracted
    separately for each filter and merged into the matching view. */
module ContractExcludable {
  import opened ContractedEdges
  import EdgeExport

  datatype GraphAndFilter = GraphAndFilter(edges: seq<QueryEdge>, filters: seq<seq<bool>>)

  /** The keys of the edges that filter `i` lets through: the graph a query with exclusion `i` sees. */
  ghost function Selected(r: GraphAndFilter, i: nat): set<seq<int>>
    requires i < |r.filters| && |r.filters[i]| == |r.edges|
  {
    set k | 0 <= k < |r.edges| && r.filters[i][k] :: r.edges[k].Key()
  }

  predicate InCore(core: seq<bool>, e: QueryEdge)
    requires e.source < |core| && e.target < |core|
  {
    core[e.source] && core[e.target]
  }

  ghost predicate InRange(n: nat, edges: seq<QueryEdge>) {
    forall e :: e in edges ==> e.source < n && e.target < n
  }

  method AlwaysAllowed(numNodes: nat, filters: seq<seq<bool>>) returns (allowed: seq<bool>)
    requires forall f :: f in filters ==> |f| == numNodes
    ensures |allowed| == numNodes
    ensures forall v: nat :: v < numNodes ==> (allowed[v] <==> forall f :: f in filters ==> f[v])
  {
    allowed := seq(numNodes, _ => true);
    for i := 0 to |filters|
      invariant |allowed| == numNodes
      invariant forall v: nat :: v < numNodes ==> (allowed[v] <==> forall f :: f in filters[..i] ==> f[v])
    {
      var filter := filters[i];
      assert filter in filters && filters[..i + 1] == filters[..i] + [filter];
      ghost var before := allowed;
      for v := 0 to numNodes
        invariant |allowed| == numNodes
        invariant forall u: nat :: u < v ==> allowed[u] == (before[u] && filter[u])
        invariant forall u: nat :: v <= u < numNodes ==> allowed[u] == before[u]
      {
        allowed := allowed[v := allowed[v] && filter[v]];
      }
    }
    assert filters[..|filters|] == filters;
  }

  /** The edges with an end outside the core, in their order. */
  function NonCore(edges: seq<QueryEdge>, core: seq<bool>): (kept: seq<QueryEdge>)
    requires forall e :: e in edges ==> e.source < |core| && e.target < |core|
    ensures forall e :: e in kept <==> e in edges && !(core[e.source] && core[e.target])
  {
    if edges == [] then []
    else
      var n := |edges| - 1;
      NonCore(edges[..n], core) + if InCore(core, edges[n]) then [] else [edges[n]]
  }

  /** The edges that `shared_core_graph` keeps: both ends in the core. */
  function CoreEdges(edges: seq<QueryEdge>, core: seq<bool>): (kept: seq<QueryEdge>)
    requires forall e :: e in edges ==> e.source < |core| && e.target < |core|
    ensures forall e :: e in kept <==> e in edges && core[e.source] && core[e.target]
  {
    if edges == [] then []
    else
      var n := |edges| - 1;
      CoreEdges(edges[..n], core) + if InCore(core, edges[n]) then [edges[n]] else []
  }

  lemma OneMoreEdge(front: seq<QueryEdge>, outside: seq<QueryEdge>, inside: seq<QueryEdge>, e: QueryEdge)
    requires multiset(outside) + multiset(inside) == multiset(front)
    ensures multiset(outside + [e]) + multiset(inside) == multiset(front + [e])
    ensures multiset(outside) + multiset(inside + [e]) == multiset(front + [e])
    ensures outside + [] == outside && inside + [] == inside
  {
  }

  /** No contracted edge is lost or doubled between the container and the shared core. */
  lemma {:induction false} ContainerAndCore(edges: seq<QueryEdge>, core: seq<bool>)
    requires InRange(|core|, edges)
    ensures multiset(NonCore(edges, core)) + multiset(CoreEdges(edges, core)) == multiset(edges)
  {
    if edges != [] {
      var n := |edges| - 1;
      ContainerAndCore(edges[..n], core);
      OneMoreEdge(edges[..n], NonCore(edges[..n], core), CoreEdges(edges[..n], core), edges[n]);
      assert edges == edges[..n] + [edges[n]];
    }
  }

  /** The `remove_if` that drops the edges between two core nodes. */
  method RemoveCoreEdges(edges: seq<QueryEdge>, core: seq<bool>) returns (nonCore: seq<QueryEdge>)
    requires InRange(|core|, edges)
    ensures nonCore == NonCore(edges, core)
  {
    nonCore := [];
    for k := 0 to |edges|
      invariant nonCore == NonCore(edges[..k], core)
    {
      assert edges[..k + 1][..k] == edges[..k];
      if !InCore(core, edges[k]) {
        nonCore := nonCore + [edges[k]];
      }
    }
    assert edges[..|edges|] == edges;
  }

  predicate AllTrue(filter: seq<bool>) {
    forall i :: 0 <= i < |filter| ==> filter[i]
  }

  /** The keys that view `i` must hold: the non-core edges that filter `i` allows and the i-th contracted core. */
  ghost function Expected(contracted: seq<QueryEdge>, core: seq<bool>, filter: seq<bool>,
          contractedCore: seq<QueryEdge>): set<seq<int>>
    requires InRange(|core|, contracted) && |filter| == |core|
  {
    (set e | e in contracted && !(core[e.source] && core[e.target]) && filter[e.source] && filter[e.target] :: e.Key())
        + Keys(contractedCore)
  }

  /** What has been put into the container after some merges, with repetition. */
  function Stored(nonCore: seq<QueryEdge>, cores: seq<seq<QueryEdge>>): seq<QueryEdge> {
    if cores == [] then nonCore else Stored(nonCore, cores[..|cores| - 1]) + cores[|cores| - 1]
  }

  /** The condition under which no edge ends up in the container twice: in each merged list, an edge that an earlier
      merge has stored is not ordered before its predecessors, and any other edge occurs once. */
  ghost predicate StoredOnce(nonCore: seq<QueryEdge>, cores: seq<seq<QueryEdge>>) {
    DistinctKeys(nonCore) && forall i :: 0 <= i < |cores| ==> MergesOnce(Stored(nonCore, cores[..i]), cores[i])
  }

  /** Contracting the core only makes edges between core nodes. */
  predicate InsideCore(core: seq<bool>, cores: seq<seq<QueryEdge>>) {
    forall c :: c in cores ==>
      forall e :: e in c ==> e.source < |core| && e.target < |core| && core[e.source] && core[e.target]
  }

  lemma MergesOnceByKeys(a: seq<QueryEdge>, b: seq<QueryEdge>, news: seq<QueryEdge>)
    requires Keys(a) == Keys(b)
    ensures MergesOnce(a, news) <==> MergesOnce(b, news)
  {
    hide Keys, MergeCompare;
    assert forall x, y :: InPlace(a, x, y) <==> InPlace(b, x, y);
  }

  /** The condition, one merge at a time. */
  lemma StoredOnceNext(nonCore: seq<QueryEdge>, cores: seq<seq<QueryEdge>>, i: nat, edges: seq<QueryEdge>)
    requires i < |cores| && Keys(edges) == Keys(Stored(nonCore, cores[..i]))
    ensures StoredOnce(nonCore, cores[..i + 1]) <==> StoredOnce(nonCore, cores[..i]) && MergesOnce(edges, cores[i])
    ensures Keys(Stored(nonCore, cores[..i + 1])) == Keys(edges) + Keys(cores[i])
  {
    hide Keys, MergesOnce, DistinctKeys;
    var now := cores[..i + 1];
    assert now[..i] == cores[..i];
    MergesOnceByKeys(edges, Stored(nonCore, cores[..i]), cores[i]);
    KeysUnion(Stored(nonCore, cores[..i]), cores[i]);
    forall k | 0 <= k < i ensures now[..k] == cores[..i][..k] {
    }
  }

  /** Edges with an end outside the core share no key with edges inside it. */
  lemma KeysOutsideApart(nonCore: seq<QueryEdge>, news: seq<QueryEdge>, core: seq<bool>)
    requires forall e :: e in nonCore
                         ==> e.source < |core| && e.target < |core| && !(core[e.source] && core[e.target])
    requires forall e :: e in news ==> e.source < |core| && e.target < |core| && core[e.source] && core[e.target]
    ensures Keys(nonCore) !! Keys(news)
  {
    forall e, f | e in nonCore && f in news ensures e.Key() != f.Key() {
      assert e.Key()[0] == e.source && e.Key()[1] == e.target && f.Key()[0] == f.source && f.Key()[1] == f.target;
    }
  }

  /** The stored edges, in full: those with an end outside the core, and edges of the contracted cores. */
  ghost predicate FromInput(contracted: seq<QueryEdge>, core: seq<bool>, cores: seq<seq<QueryEdge>>,
          edges: seq<QueryEdge>)
    requires InRange(|core|, contracted)
  {
    && (forall e :: e in contracted && !(core[e.source] && core[e.target]) ==> e in edges)
    && forall e :: e in edges
                   ==> (e in contracted && !(core[e.source] && core[e.target]))
                       || exists i :: 0 <= i < |cores| && e in cores[i]
  }

  lemma {:induction false} StoredMembers(nonCore: seq<QueryEdge>, cores: seq<seq<QueryEdge>>, e: QueryEdge)
    requires e in Stored(nonCore, cores)
    ensures e in nonCore || exists i :: 0 <= i < |cores| && e in cores[i]
  {
    if cores != [] {
      var n := |cores| - 1;
      if e !in cores[n] {
        StoredMembers(nonCore, cores[..n], e);
        if e !in nonCore {
          var i :| 0 <= i < n && e in cores[..n][i];
          assert cores[i] == cores[..n][i];
        }
      }
    }
  }

  lemma StoredFromInput(contracted: seq<QueryEdge>, core: seq<bool>, cores: seq<seq<QueryEdge>>,
          edges: seq<QueryEdge>)
    requires InRange(|core|, contracted)
    requires forall e :: e in NonCore(contracted, core) ==> e in edges
    requires forall e :: e in edges ==> e in Stored(NonCore(contracted, core), cores)
    ensures FromInput(contracted, core, cores, edges)
  {
    hide NonCore, Stored;
    forall e | e in edges && !(e in contracted && !(core[e.source] && core[e.target]))
      ensures exists i :: 0 <= i < |cores| && e in cores[i]
    {
      StoredMembers(NonCore(contracted, core), cores, e);
    }
  }

  lemma StoredNext(nonCore: seq<QueryEdge>, cores: seq<seq<QueryEdge>>, i: nat)
    requires i < |cores|
    ensures Stored(nonCore, cores[..i + 1]) == Stored(nonCore, cores[..i]) + cores[i]
  {
    assert cores[..i + 1][..i] == cores[..i];
  }

  /** `contracted` is the edge list after contracting the non-core nodes, `contractedCores[i]` the edge list of the
      core contracted under filter i, and `full` that of the graph contracted as a whole. */
  method ContractExcludableGraph(numNodes: nat, filters: seq<seq<bool>>, core: seq<bool>, contracted: seq<QueryEdge>,
                                 contractedCores: seq<seq<QueryEdge>>, full: seq<QueryEdge>) returns (r: GraphAndFilter)
    requires |core| == numNodes && InRange(numNodes, contracted) && |contractedCores| == |filters| <= 8
    requires forall f :: f in filters ==> |f| == numNodes
    ensures |r.filters| == |filters| && forall i: nat :: i < |filters| ==> |r.filters[i]| == |r.edges|
    ensures var whole := |filters| == 1 && forall v: nat :: v < numNodes ==> filters[0][v];
            if whole then r.edges == full && r.filters[0] == seq(|full|, _ => true)
            else FromInput(contracted, core, contractedCores, r.edges)
    ensures if |filters| == 1 && AllTrue(filters[0]) then r.edges == full && Selected(r, 0) == Keys(full)
            else forall i: nat :: i < |filters|
                                  ==> Selected(r, i) == Expected(contracted, core, filters[i], contractedCores[i])
    ensures |filters| > 1 || (|filters| == 1 && !AllTrue(filters[0]))
            ==> Sorted(r.edges) && InFieldOrder(r.edges) && EdgeExport.SortedByEnds(r.edges)
    ensures !(|filters| == 1 && AllTrue(filters[0])) && InsideCore(core, contractedCores)
            ==> (DistinctKeys(r.edges) <==> StoredOnce(NonCore(contracted, core), contractedCores))
  {
    hide Sorted, StrictlySorted, Ordering, View, Expected, Keys, Selected, Scan, Flag, InRange, DistinctKeys,
         MergesOnce, StoredOnce, Stored, AllTrue, InCore, AllowedKeys, InFieldOrder, FromInput, EdgeExport.SortedByEnds;
    AllTrueOf(numNodes, filters);
    if |filters| == 1 && AllTrue(filters[0]) {
      r := GraphAndFilter(full, [seq(|full|, _ => true)]);
      AllSelected(full);
      return;
    }
    var container := new ContractedEdgeContainer();
    var nonCore := RemoveCoreEdges(contracted, core);
    NonCoreInRange(contracted, nonCore, core);
    container.Insert(nonCore);
    for i := 0 to |filters|
      invariant container.Valid() && container.index == 0 && container.edges == nonCore
      invariant forall j: nat :: j < i ==> container.ViewOf(j) == Expected(contracted, core, filters[j], [])
    {
      assert filters[i] in filters;
      container.Filter(filters[i], i);
      ExpectedStart(contracted, nonCore, core, filters[i]);
    }
    NothingMerged(nonCore, contractedCores);
    for i := 0 to |filters|
      invariant container.Valid() && container.index == i && (i == 0 ==> container.edges == nonCore)
      invariant Keys(container.edges) == Keys(Stored(nonCore, contractedCores[..i]))
      invariant InsideCore(core, contractedCores)
                ==> (DistinctKeys(container.edges) <==> StoredOnce(nonCore, contractedCores[..i]))
      invariant forall j: nat :: j < i
                                 ==> container.ViewOf(j) == Expected(contracted, core, filters[j], contractedCores[j])
      invariant forall j: nat :: i <= j < |filters|
                                 ==> container.ViewOf(j) == Expected(contracted, core, filters[j], [])
      invariant 0 < i ==> Sorted(container.edges) && InFieldOrder(container.edges)
      invariant forall e :: e in nonCore ==> e in container.edges
      invariant forall e :: e in container.edges ==> e in Stored(nonCore, contractedCores[..i])
    {
      StoredNext(nonCore, contractedCores, i);
      StoredOnceNext(nonCore, contractedCores, i, container.edges);
      if i == 0 && InsideCore(core, contractedCores) {
        FirstMergeApart(contracted, nonCore, core, contractedCores);
      }
      container.Merge(contractedCores[i]);
      ExpectedGrows(contracted, core, filters[i], contractedCores[i]);
    }
    assert contractedCores[..|filters|] == contractedCores;
    FieldOrderByEnds(container.edges);
    StoredFromInput(contracted, core, contractedCores, container.edges);
    var edgeFilters := container.MakeEdgeFilters();
    r := GraphAndFilter(container.edges, edgeFilters);
    forall i: nat | i < |filters| ensures Selected(r, i) == container.ViewOf(i) {
      SelectedIsView(r, i, container.edges, container.flags);
    }
  }

  lemma AllTrueOf(numNodes: nat, filters: seq<seq<bool>>)
    requires forall f :: f in filters ==> |f| == numNodes
    ensures |filters| == 1 ==> (AllTrue(filters[0]) <==> forall v: nat :: v < numNodes ==> filters[0][v])
  {
    if |filters| == 1 {
      assert filters[0] in filters;
    }
  }

  lemma FieldOrderByEnds(edges: seq<QueryEdge>)
    ensures InFieldOrder(edges) ==> EdgeExport.SortedByEnds(edges)
  {
  }

  lemma NothingMerged(nonCore: seq<QueryEdge>, cores: seq<seq<QueryEdge>>)
    ensures Stored(nonCore, cores[..0]) == nonCore && (StoredOnce(nonCore, cores[..0]) <==> DistinctKeys(nonCore))
  {
  }

  lemma FirstMergeApart(contracted: seq<QueryEdge>, nonCore: seq<QueryEdge>, core: seq<bool>,
          cores: seq<seq<QueryEdge>>)
    requires InRange(|core|, contracted) && nonCore == NonCore(contracted, core) && InsideCore(core, cores)
             && cores != []
    ensures Keys(nonCore) !! Keys(cores[0])
  {
    assert cores[0] in cores;
    KeysOutsideApart(nonCore, cores[0], core);
  }

  lemma AllSelected(full: seq<QueryEdge>)
    ensures Selected(GraphAndFilter(full, [seq(|full|, _ => true)]), 0) == Keys(full)
  {
    var r := GraphAndFilter(full, [seq(|full|, _ => true)]);
    forall e | e in full ensures e.Key() in Selected(r, 0) {
      var k :| 0 <= k < |full| && full[k] == e;
      assert r.filters[0][k];
    }
  }

  lemma NonCoreInRange(contracted: seq<QueryEdge>, nonCore: seq<QueryEdge>, core: seq<bool>)
    requires InRange(|core|, contracted) && forall e :: e in nonCore ==> e in contracted
    ensures forall e :: e in nonCore ==> e.source < |core| && e.target < |core|
  {
  }

  lemma ExpectedStart(contracted: seq<QueryEdge>, nonCore: seq<QueryEdge>, core: seq<bool>, filter: seq<bool>)
    requires InRange(|core|, contracted) && |filter| == |core|
    requires forall e :: e in nonCore <==> e in contracted && !(core[e.source] && core[e.target])
    ensures AllowedKeys(nonCore, filter) == Expected(contracted, core, filter, [])
  {
    assert Keys([]) == {};
  }

  lemma SelectedIsView(r: GraphAndFilter, i: nat, edges: seq<QueryEdge>, flags: seq<MergedFlags>)
    requires i < |r.filters| && i < 8 && |r.filters[i]| == |r.edges| == |flags| && r.edges == edges
    requires forall k: nat :: k < |edges| ==> (r.filters[i][k] <==> Has(flags[k], i))
    ensures Selected(r, i) == View(edges, flags, i)
  {
  }

  lemma ExpectedGrows(contracted: seq<QueryEdge>, core: seq<bool>, filter: seq<bool>, contractedCore: seq<QueryEdge>)
    requires InRange(|core|, contracted) && |filter| == |core|
    ensures Expected(contracted, core, filter, []) + Keys(contractedCore)
            == Expected(contracted, core, filter, contractedCore)
  {
    assert Keys([]) == {};
  }

  /** The edge list of a contracted graph is sorted by (source, target) only, as `QueryEdge::operator<` compares, so
      the lists of two contracted cores may hold the same two parallel edges in different orders. The condition then
      fails. */
  lemma MergeOfEndsOrderCanDuplicate() returns (core: seq<bool>, cores: seq<seq<QueryEdge>>)
    ensures InsideCore(core, cores) && forall c :: c in cores ==> EdgeExport.SortedByEnds(c) && DistinctKeys(c)
    ensures !StoredOnce([], cores)
  {
    hide MergeCompare, DistinctKeys, EdgeExport.SortedByEnds;
    var x := QueryEdge(0, 1, 2, false, 10, 10, true, false, 1.0);
    var y := QueryEdge(0, 1, 1, false, 12, 12, false, true, 1.0);
    core, cores := [true, true], [[y, x], [x, y]];
    LowerTurn(x, y);
    ParallelPair(x, y);
    ParallelPair(y, x);
    var before := Stored([], cores[..1]);
    assert cores[..1] == [[y, x]];
    assert before == Stored([], cores[..1][..0]) + [y, x];
    assert before[|before| - 2] == y && y.Key() in Keys(before);
    assert !InPlace(before, cores[1][0], cores[1][1]);
  }

  lemma ParallelPair(x: QueryEdge, y: QueryEdge)
    requires x.source == y.source && x.target == y.target && x.Key() != y.Key()
    ensures EdgeExport.SortedByEnds([x, y]) && DistinctKeys([x, y])
  {
  }

  lemma LowerTurn(x: QueryEdge, y: QueryEdge)
    requires x.source == y.source && x.target == y.target && x.shortcut == y.shortcut && y.turnId < x.turnId
    ensures MergeCompare(y, x) && x.Key() != y.Key()
  {
    assert y.Key()[3] < x.Key()[3];
    assert LexLess(y.Key()[3..], x.Key()[3..]);
    assert y.Key()[2..][1..] == y.Key()[3..] && x.Key()[2..][1..] == x.Key()[3..];
    assert LexLess(y.Key()[2..], x.Key()[2..]);
    assert y.Key()[1..][1..] == y.Key()[2..] && x.Key()[1..][1..] == x.Key()[2..];
    assert LexLess(y.Key()[1..], x.Key()[1..]);
  }
}
