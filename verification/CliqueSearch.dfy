/** The state of one label-setting search in a graph some of whose arcs, the clique arcs, are precomputed
    shortest paths, and the invariant that makes skipping clique arcs after a clique arc harmless. */
module CliqueSearch {
  import opened Options
  import opened Paths
  import opened QueryHeaps

  datatype Search = Search(labels: map<NodeID, Label>, queue: set<NodeID>) {
    ghost function Settled(): set<NodeID> {
      labels.Keys - queue
    }
  }

  /** The effect of relaxing an arc to `to` at total cost `cost`. */
  function Relaxed(st: Search, to: NodeID, cost: Cost, clique: bool): Search {
    if to !in st.labels then
      Search(st.labels[to := Label(cost, clique)], st.queue + {to})
    else if Less(cost, st.labels[to].cost) then
      Search(st.labels[to := Label(cost, clique)], st.queue)
    else
      st
  }

  ghost predicate Follows(a: Arc, b: Arc) {
    a.to == b.from
  }

  /** Two consecutive clique arcs are never cheaper than the best single clique arc over the same ends. */
  ghost predicate Transitive(clique: Arcs) {
    forall a, b {:trigger Follows(a, b)} :: a in clique && b in clique && Follows(a, b) ==>
      exists c :: c in clique && c.from == a.from && c.to == b.to && AtMost(c.cost, Add(a.cost, b.cost))
  }

  ghost predicate Reaches(arcs: Arcs, s: NodeID, v: NodeID, cost: Cost) {
    exists p :: IsPath(arcs, s, p, v) && PathCost(p) == cost
  }

  /** A label marked `fromClique` was set by scanning the clique arcs of a settled node that is not so marked. */
  ghost predicate HasCliqueParent(clique: Arcs, st: Search, v: NodeID)
    requires v in st.labels
  {
    exists a :: a in clique && a.to == v && a.from in st.Settled()
      && !st.labels[a.from].fromClique && st.labels[v].cost == Add(st.labels[a.from].cost, a.cost)
  }

  ghost predicate Relaxes(labels: map<NodeID, Label>, a: Arc)
    requires a.from in labels
  {
    a.to in labels && AtMost(labels[a.to].cost, Add(labels[a.from].cost, a.cost))
  }

  ghost predicate Explored(overlay: Arcs, st: Search, u: NodeID)
    requires u in st.labels
  {
    forall a :: a in overlay && a.from == u ==> Relaxes(st.labels, a)
  }

  ghost predicate Sound(overlay: Arcs, clique: Arcs, s: NodeID, st: Search) {
    && s in st.labels && st.labels[s].cost == ZERO && st.queue <= st.labels.Keys
    && (forall v :: v in st.labels ==> Reaches(overlay, s, v, st.labels[v].cost))
    && (forall u, v :: u in st.Settled() && v in st.queue ==> st.labels[u].cost.weight <= st.labels[v].cost.weight)
    && (forall v :: v in st.labels && st.labels[v].fromClique ==> HasCliqueParent(clique, st, v))
  }

  /** What holds whenever the search is about to remove the next node. */
  ghost predicate Invariant(overlay: Arcs, clique: Arcs, s: NodeID, st: Search) {
    && Sound(overlay, clique, s, st)
    && (s in st.Settled() || st.Settled() == {})
    && (forall u :: u in st.Settled() ==> Explored(overlay, st, u))
  }

  ghost predicate IsLastSettled(st: Search, x: NodeID) {
    && x in st.Settled()
    && (forall u :: u in st.Settled() ==> st.labels[u].cost.weight <= st.labels[x].cost.weight)
  }

  /** Settled labels are frozen and the other labels only improve. */
  ghost predicate Improves(st: Search, st': Search) {
    && st'.Settled() == st.Settled()
    && (forall u :: u in st.Settled() ==> st'.labels[u] == st.labels[u])
    && (forall v :: v in st.labels ==> v in st'.labels && AtMost(st'.labels[v].cost, st.labels[v].cost))
  }

  lemma StartInvariant(overlay: Arcs, clique: Arcs, s: NodeID)
    ensures Invariant(overlay, clique, s, Search(map[s := Label(ZERO, false)], {s}))
  {
    assert IsPath(overlay, s, [], s) && PathCost([]) == ZERO;
  }

  lemma SettledGrows(st: Search, x: NodeID)
    requires x in st.queue && st.queue <= st.labels.Keys
    ensures Search(st.labels, st.queue - {x}).Settled() == st.Settled() + {x}
  {
  }

  /** Removing a node of least weight breaks no promise about labels. */
  lemma SettleKeepsSound(overlay: Arcs, clique: Arcs, s: NodeID, st: Search, x: NodeID)
    requires Sound(overlay, clique, s, st) && x in st.queue
    requires forall v :: v in st.queue ==> st.labels[x].cost.weight <= st.labels[v].cost.weight
    ensures Sound(overlay, clique, s, Search(st.labels, st.queue - {x}))
  {
    hide Reaches;
    var st' := Search(st.labels, st.queue - {x});
    SettledGrows(st, x);
    forall v | v in st'.labels && st'.labels[v].fromClique ensures HasCliqueParent(clique, st', v) {
      assert HasCliqueParent(clique, st, v);
    }
  }

  /** Removing a node of least weight keeps soundness and makes it the last settled node. */
  lemma Settle(overlay: Arcs, clique: Arcs, s: NodeID, st: Search, x: NodeID)
    requires Invariant(overlay, clique, s, st) && x in st.queue
    requires forall v :: v in st.queue ==> st.labels[x].cost.weight <= st.labels[v].cost.weight
    requires st.Settled() == {} ==> st.queue == {s}
    ensures var st' := Search(st.labels, st.queue - {x});
            Sound(overlay, clique, s, st') && IsLastSettled(st', x) && s in st'.Settled()
            && (forall u :: u in st'.Settled() && u != x ==> Explored(overlay, st', u))
  {
    hide Reaches, HasCliqueParent;
    SettledGrows(st, x);
    SettleKeepsSound(overlay, clique, s, st, x);
  }

  lemma ArcReaches(overlay: Arcs, s: NodeID, a: Arc, cost: Cost)
    requires Positive(overlay) && a in overlay && Reaches(overlay, s, a.from, cost)
    ensures Reaches(overlay, s, a.to, Add(cost, a.cost)) && (a.to == s ==> !Less(Add(cost, a.cost), ZERO))
    ensures cost.weight <= Add(cost, a.cost).weight && !Less(Add(cost, a.cost), cost)
    ensures a.from != a.to ==> cost.weight < Add(cost, a.cost).weight
  {
    var p :| IsPath(overlay, s, p, a.from) && PathCost(p) == cost;
    PathSnoc(overlay, s, p, a);
    if a.to == s {
      ClosedWalkCost(overlay, s, p + [a]);
    }
  }

  lemma ParentsPersist(clique: Arcs, st: Search, a: Arc, viaClique: bool)
    requires a.from in st.Settled() && st.queue <= st.labels.Keys
             && (viaClique ==> a in clique && !st.labels[a.from].fromClique)
    requires forall v :: v in st.labels && st.labels[v].fromClique ==> HasCliqueParent(clique, st, v)
    requires var st' := Relaxed(st, a.to, Add(st.labels[a.from].cost, a.cost), viaClique);
             st' != st ==> a.to !in st.Settled()
    ensures var st' := Relaxed(st, a.to, Add(st.labels[a.from].cost, a.cost), viaClique);
            forall v :: v in st'.labels && st'.labels[v].fromClique ==> HasCliqueParent(clique, st', v)
  {
    hide Add;
    var st' := Relaxed(st, a.to, Add(st.labels[a.from].cost, a.cost), viaClique);
    if st' != st {
      assert st'.Settled() == st.Settled();
      forall v | v in st'.labels && st'.labels[v].fromClique ensures HasCliqueParent(clique, st', v) {
        if v == a.to {
          assert a in clique && st'.labels[v].cost == Add(st'.labels[a.from].cost, a.cost);
        } else {
          assert HasCliqueParent(clique, st, v);
        }
      }
    }
  }

  /** Relaxing one arc of the last settled node keeps soundness, freezes settled labels, and improves a
      known node only while that node is still queued: a removed node never needs a decreased key. */
  lemma RelaxArc(overlay: Arcs, clique: Arcs, s: NodeID, st: Search, a: Arc, viaClique: bool)
    requires Positive(overlay) && Sound(overlay, clique, s, st) && IsLastSettled(st, a.from)
    requires a in overlay
    requires viaClique ==> a in clique && !st.labels[a.from].fromClique
    ensures var cost := Add(st.labels[a.from].cost, a.cost);
            var st' := Relaxed(st, a.to, cost, viaClique);
            && Sound(overlay, clique, s, st') && Improves(st, st') && IsLastSettled(st', a.from)
            && Relaxes(st'.labels, a)
            && (a.to in st.labels && Less(cost, st.labels[a.to].cost) ==> a.to in st.queue && a.to != s)
  {
    hide Reaches, HasCliqueParent, Positive;
    var cost := Add(st.labels[a.from].cost, a.cost);
    var st' := Relaxed(st, a.to, cost, viaClique);
    ArcReaches(overlay, s, a, st.labels[a.from].cost);
    assert st'.Settled() == st.Settled();
    assert Improves(st, st');
    ParentsPersist(clique, st, a, viaClique);
  }

  lemma ImprovesTransitive(st0: Search, st1: Search, st2: Search)
    requires Improves(st0, st1) && Improves(st1, st2)
    ensures Improves(st0, st2)
  {
  }

  lemma RelaxesPersists(st: Search, st': Search, a: Arc)
    requires Improves(st, st') && a.from in st.Settled() && Relaxes(st.labels, a)
    ensures Relaxes(st'.labels, a)
  {
  }

  lemma ExploredPersists(overlay: Arcs, st: Search, st': Search, u: NodeID)
    requires Improves(st, st') && u in st.Settled() && Explored(overlay, st, u)
    ensures Explored(overlay, st', u)
  {
    forall a | a in overlay && a.from == u ensures Relaxes(st'.labels, a) {
      RelaxesPersists(st, st', a);
    }
  }

  /** The pruning rule: the clique arcs of a node that was itself reached by a clique arc need no scan. */
  lemma PruningLosesNothing(overlay: Arcs, clique: Arcs, s: NodeID, st: Search, x: NodeID)
    requires Transitive(clique) && clique <= overlay && Positive(overlay)
    requires Sound(overlay, clique, s, st) && x in st.Settled() && st.labels[x].fromClique
    requires forall u :: u in st.Settled() && u != x ==> Explored(overlay, st, u)
    ensures forall a :: a in clique && a.from == x ==> Relaxes(st.labels, a)
  {
    assert HasCliqueParent(clique, st, x);
    var up :| up in clique && up.to == x && up.from in st.Settled()
      && !st.labels[up.from].fromClique && st.labels[x].cost == Add(st.labels[up.from].cost, up.cost);
    forall a | a in clique && a.from == x ensures Relaxes(st.labels, a) {
      assert Follows(up, a);
      var c :| c in clique && c.from == up.from && c.to == a.to && AtMost(c.cost, Add(up.cost, a.cost));
      assert Relaxes(st.labels, c);
    }
  }

  /** Settled labels are final: no path to a settled node is cheaper than its label, although the queue is ordered by
      weight alone. */
  lemma {:induction false} SettledIsLeast(overlay: Arcs, clique: Arcs, s: NodeID, st: Search, u: NodeID, p: seq<Arc>,
          t: NodeID)
    requires Positive(overlay) && Invariant(overlay, clique, s, st)
    requires u in st.Settled() && t in st.Settled() && IsPath(overlay, u, p, t)
    ensures AtMost(st.labels[t].cost, Add(st.labels[u].cost, PathCost(p)))
    decreases p
  {
    if p != [] {
      var v := p[0].to;
      assert Explored(overlay, st, u) && Relaxes(st.labels, p[0]);
      if v in st.Settled() {
        SettledIsLeast(overlay, clique, s, st, v, p[1..], t);
      } else {
        PathWeight(overlay, v, p[1..], t);
      }
    }
  }

  lemma {:induction false} ReachedIsLabelled(overlay: Arcs, clique: Arcs, s: NodeID, st: Search, u: NodeID, p: seq<Arc>,
          t: NodeID)
    requires Invariant(overlay, clique, s, st) && st.queue == {}
    requires u in st.labels && IsPath(overlay, u, p, t)
    ensures t in st.labels
    decreases p
  {
    if p != [] {
      assert u in st.Settled() && Relaxes(st.labels, p[0]);
      ReachedIsLabelled(overlay, clique, s, st, p[0].to, p[1..], t);
    }
  }

  function LabelCost(st: Search, t: NodeID): Option<Cost> {
    if t in st.labels then Some(st.labels[t].cost) else None
  }

  /** When the search may stop, the label of `t`, or its absence, is the distance from `s`. */
  lemma FinalLabel(overlay: Arcs, clique: Arcs, s: NodeID, st: Search, t: NodeID)
    requires Positive(overlay) && Invariant(overlay, clique, s, st) && s in st.Settled()
    requires st.queue == {} || t in st.Settled()
    ensures IsDistance(overlay, s, t, LabelCost(st, t))
  {
    if t in st.labels {
      assert Reaches(overlay, s, t, st.labels[t].cost);
      forall p | IsPath(overlay, s, p, t) ensures AtMost(st.labels[t].cost, PathCost(p)) {
        SettledIsLeast(overlay, clique, s, st, s, p, t);
      }
    } else {
      forall p ensures !IsPath(overlay, s, p, t) {
        if IsPath(overlay, s, p, t) {
          ReachedIsLabelled(overlay, clique, s, st, s, p, t);
        }
      }
    }
  }
}
