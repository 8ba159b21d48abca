/** The addressable priority queue of the searches: an append-only node table, an index array that is
    never cleared between searches, and a d-ary heap of table positions ordered by (weight, position). */
module QueryHeaps {
  import opened Paths

  datatype HeapData = HeapData(fromClique: bool, duration: int, distance: real)

  datatype HeapNode = HeapNode(node: NodeID, weight: int, data: HeapData) {
    ghost function ToLabel(): Label {
      Label(Cost(weight, data.duration, data.distance), data.fromClique)
    }
  }

  /** What a search knows about a node: its tentative cost and whether a clique arc reached it. */
  datatype Label = Label(cost: Cost, fromClique: bool)

  lemma {:induction false} MinExists(nodes: seq<HeapNode>, queue: set<nat>) returns (m: nat)
    requires queue != {} && forall i :: i in queue ==> i < |nodes|
    ensures m in queue && forall i :: i in queue ==> Before(nodes, m, i)
    decreases |queue|
  {
    m :| m in queue;
    var rest := queue - {m};
    if rest != {} {
      var r := MinExists(nodes, rest);
      if !Before(nodes, m, r) {
        m := r;
      }
    }
    assert forall i :: i in queue ==> i == m || i in rest || Before(nodes, m, i);
  }

  predicate Before(nodes: seq<HeapNode>, i: nat, j: nat)
    requires i < |nodes| && j < |nodes|
  {
    nodes[i].weight < nodes[j].weight || (nodes[i].weight == nodes[j].weight && i <= j)
  }

  ghost function Nodes(nodes: seq<HeapNode>, queue: set<nat>): set<NodeID>
    requires forall i :: i in queue ==> i < |nodes|
  {
    set i | i in queue :: nodes[i].node
  }

  /** Without the entry at `removed` its node is not queued any more, since each node has one entry. */
  lemma NodesWithout(nodes: seq<HeapNode>, queue: set<nat>, removed: nat)
    requires removed in queue && forall i :: i in queue ==> i < |nodes|
    requires forall i, j :: i in queue && j in queue && nodes[i].node == nodes[j].node ==> i == j
    ensures Nodes(nodes, queue - {removed}) == Nodes(nodes, queue) - {nodes[removed].node}
  {
    forall v | v in Nodes(nodes, queue) && v != nodes[removed].node ensures v in Nodes(nodes, queue - {removed}) {
      var i :| i in queue && nodes[i].node == v;
      assert i in queue - {removed};
    }
  }

  class QueryHeap {
    const positions: array<nat>
    var inserted: seq<HeapNode>
    var queue: set<nat>

    ghost predicate Valid()
      reads this, positions
    {
      && (forall i :: 0 <= i < |inserted| ==>
            inserted[i].node < positions.Length && positions[inserted[i].node] == i)
      && (forall i :: i in queue ==> i < |inserted|)
    }

    predicate WasInserted(node: NodeID)
      requires node < positions.Length
      reads this, positions
    {
      positions[node] < |inserted| && inserted[positions[node]].node == node
    }

    /** The abstract state: the label of each node inserted since the last Clear, and the nodes not yet removed. */
    ghost function Labels(): map<NodeID, Label>
      reads this, positions
    {
      map v: NodeID | v < positions.Length && WasInserted(v) :: inserted[positions[v]].ToLabel()
    }

    ghost function Queued(): set<NodeID>
      requires Valid()
      reads this, positions
    {
      Nodes(inserted, queue)
    }

    ghost function Domain(): nat { positions.Length }

    constructor (size: nat)
      ensures Valid() && Labels() == map[] && Queued() == {} && Domain() == size && fresh(positions)
    {
      positions := new nat[size](_ => 0);
      inserted := [];
      queue := {};
    }

    method Clear()
      requires Valid()
      modifies this
      ensures Valid() && Labels() == map[] && Queued() == {}
    {
      inserted := [];
      queue := {};
    }

    method Insert(node: NodeID, weight: int, data: HeapData)
      requires Valid() && node < Domain() && node !in Labels()
      modifies this, positions
      ensures Valid()
      ensures Labels() == old(Labels())[node := HeapNode(node, weight, data).ToLabel()]
      ensures Queued() == old(Queued()) + {node}
    {
      var index := |inserted|;
      ghost var before := Queued();
      inserted := inserted + [HeapNode(node, weight, data)];
      queue := queue + {index};
      positions[node] := index;
      assert Queued() == before + {node} by {
        assert index in queue && inserted[index].node == node;
        forall v | v in before ensures v in Queued() {
          var i :| i in old(queue) && old(inserted)[i].node == v;
          assert i in queue && inserted[i].node == v;
        }
      }
    }

    predicate Empty(): (empty: bool)
      requires Valid()
      reads this, positions
      ensures empty <==> Queued() == {}
    {
      assert forall i :: i in queue ==> inserted[i].node in Queued();
      queue == {}
    }

    function GetKey(node: NodeID): (weight: int)
      requires Valid() && node in Labels()
      reads this, positions
      ensures weight == Labels()[node].cost.weight
    {
      inserted[positions[node]].weight
    }

    function GetData(node: NodeID): (data: HeapData)
      requires Valid() && node in Labels()
      reads this, positions
      ensures data == HeapData(Labels()[node].fromClique, Labels()[node].cost.duration, Labels()[node].cost.distance)
    {
      inserted[positions[node]].data
    }

    method DeleteMin() returns (node: NodeID)
      requires Valid() && !Empty()
      modifies this`queue
      ensures Valid() && Labels() == old(Labels())
      ensures node in old(Queued()) && node in Labels() && Queued() == old(Queued()) - {node}
      ensures forall v :: v in old(Queued()) ==> v in Labels() && Labels()[node].cost.weight <= Labels()[v].cost.weight
    {
      ghost var m := MinExists(inserted, queue);
      var removed :| removed in queue && forall i :: i in queue ==> Before(inserted, removed, i);
      node := inserted[removed].node;
      LeastOfQueued(removed);
      NodesWithout(inserted, queue, removed);
      queue := queue - {removed};
    }

    lemma LeastOfQueued(removed: nat)
      requires Valid() && removed in queue && forall i :: i in queue ==> Before(inserted, removed, i)
      ensures var node := inserted[removed].node;
              node in Labels() && forall v :: v in Queued()
                                              ==> v in Labels() && Labels()[node].cost.weight <= Labels()[v].cost.weight
    {
      var node := inserted[removed].node;
      forall v | v in Queued() ensures v in Labels() && Labels()[node].cost.weight <= Labels()[v].cost.weight {
        var i :| i in queue && inserted[i].node == v;
        assert positions[v] == i && Before(inserted, removed, i);
      }
    }

    /** The engine calls this only for nodes that are still queued; the precondition makes that an obligation. */
    method DecreaseKey(node: NodeID, weight: int)
      requires Valid() && node in Queued()
      modifies this`inserted
      ensures Valid() && Queued() == old(Queued())
      ensures node in old(Labels())
      ensures Labels() == old(Labels())[node :=
              old(Labels())[node].(cost := old(Labels())[node].cost.(weight := weight))]
    {
      var index := positions[node];
      inserted := inserted[index := inserted[index].(weight := weight)];
      SameQueued(old(inserted), inserted);
    }

    method SetData(node: NodeID, data: HeapData)
      requires Valid() && node in Labels()
      modifies this`inserted
      ensures Valid() && Queued() == old(Queued())
      ensures Labels() == old(Labels())[node :=
              Label(Cost(old(Labels())[node].cost.weight, data.duration, data.distance), data.fromClique)]
    {
      var index := positions[node];
      inserted := inserted[index := inserted[index].(data := data)];
      SameQueued(old(inserted), inserted);
    }

    lemma SameQueued(was: seq<HeapNode>, now: seq<HeapNode>)
      requires |was| == |now| && forall i :: 0 <= i < |was| ==> was[i].node == now[i].node
      requires forall i :: i in queue ==> i < |now|
      ensures Nodes(was, queue) == Nodes(now, queue)
    {
    }
  }
}
