/** What the conversion into the contractor's graph makes of the input, in terms of the fields of input edges and output
    records. */
module ConversionRecords {
  import opened Sorting
  import opened Paths
  import opened ContractorAdaptors

  /** A usable input edge that can be travelled from `s` to `t`. */
  predicate Leads(x: InputEdge, s: NodeID, t: NodeID) {
    x.weight != 0x7fff_ffff
    && ((x.source == s && x.target == t && x.forward) || (x.target == s && x.source == t && x.backward))
  }

  lemma {:induction false} LeastDurationIsMinimum(edges: seq<ContractorEdge>, s: NodeID, t: NodeID, fwd: bool)
    ensures forall e :: e in edges && Selects(e, s, t, fwd) ==> LeastDuration(edges, s, t, fwd) <= e.duration
    ensures LeastDuration(edges, s, t, fwd) == MAXIMAL_EDGE_DURATION
            || exists e :: e in edges && Selects(e, s, t, fwd) && e.duration == LeastDuration(edges, s, t, fwd)
  {
    if edges != [] {
      var front, last := edges[..|edges| - 1], edges[|edges| - 1];
      LeastDurationIsMinimum(front, s, t, fwd);
      assert edges == front + [last];
      if Selects(last, s, t, fwd) && last.duration <= LeastDuration(front, s, t, fwd) {
        assert last in edges && last.duration == LeastDuration(edges, s, t, fwd);
      } else if LeastDuration(front, s, t, fwd) != MAXIMAL_EDGE_DURATION {
        var e :| e in front && Selects(e, s, t, fwd) && e.duration == LeastDuration(front, s, t, fwd);
        assert e in edges;
      }
    }
  }

  lemma {:induction false} LeastDistanceIsMinimum(edges: seq<ContractorEdge>, s: NodeID, t: NodeID, fwd: bool)
    ensures forall e :: e in edges && Selects(e, s, t, fwd) ==> LeastDistance(edges, s, t, fwd) <= e.distance
    ensures LeastDistance(edges, s, t, fwd) == MAXIMAL_EDGE_DISTANCE
            || exists e :: e in edges && Selects(e, s, t, fwd) && e.distance == LeastDistance(edges, s, t, fwd)
  {
    if edges != [] {
      var front, last := edges[..|edges| - 1], edges[|edges| - 1];
      LeastDistanceIsMinimum(front, s, t, fwd);
      assert edges == front + [last];
      if Selects(last, s, t, fwd) && last.distance <= LeastDistance(front, s, t, fwd) {
        assert last in edges && last.distance == LeastDistance(edges, s, t, fwd);
      } else if LeastDistance(front, s, t, fwd) != MAXIMAL_EDGE_DISTANCE {
        var e :| e in front && Selects(e, s, t, fwd) && e.distance == LeastDistance(front, s, t, fwd);
        assert e in edges;
      }
    }
  }

  lemma {:induction false} MirrorMembers(input: seq<InputEdge>)
    ensures forall e :: e in Mirror(input)
                        <==> exists x :: x in input && x.weight != 0x7fff_ffff && (e == Forward(x) || e == Reverse(x))
  {
    if input != [] {
      var front, last := input[..|input| - 1], input[|input| - 1];
      MirrorMembers(front);
      assert input == front + [last];
      forall e ensures e in Mirror(input)
                       <==> exists x :: x in input && x.weight != 0x7fff_ffff && (e == Forward(x) || e == Reverse(x))
      {
        if x :| x in input && x.weight != 0x7fff_ffff && (e == Forward(x) || e == Reverse(x)) {
          assert x in front || x == last;
        }
      }
    }
  }

  /** The records that a group is made of: those of the same ends. */
  ghost predicate IsGroup(edges: seq<ContractorEdge>, group: seq<ContractorEdge>) {
    group != [] && forall e :: e in group <==> e in edges && SameKey(e, group[0])
  }

  lemma BehindGroup(edges: seq<ContractorEdge>, i: nat, end: nat, k: nat)
    requires i < end <= k < |edges| && SortedBy(edges, KeyAtMost) && !SameKey(edges[end], edges[i])
    ensures !SameKey(edges[k], edges[i])
  {
    assert KeyAtMost(edges[i], edges[end]) && (end == k || KeyAtMost(edges[end], edges[k]));
  }

  lemma SuffixGroup(edges: seq<ContractorEdge>, i: nat)
    requires i < |edges| && SortedBy(edges, KeyAtMost)
    ensures IsGroup(edges[i..], edges[i..GroupEnd(edges, i, i)])
  {
    hide GroupEnd, SortedBy, KeyAtMost;
    var end := GroupEnd(edges, i, i);
    var group := edges[i..end];
    forall e | e in edges[i..] && SameKey(e, group[0]) ensures e in group {
      var k :| i <= k < |edges| && edges[k] == e;
      if end <= k {
        BehindGroup(edges, i, end, k);
      }
    }
  }

  /** Each output record comes from the group of all records with its ends. */
  lemma {:induction false} GroupOfRecord(edges: seq<ContractorEdge>, i: nat, r: ContractorEdge)
    returns (group: seq<ContractorEdge>)
    requires i <= |edges| && SortedBy(edges, KeyAtMost) && r in Compacted(edges, i)
    ensures IsGroup(edges[i..], group) && SameKey(group[0], r) && group[0].source != group[0].target
    ensures r in Emit(Merged(group, true), Merged(group, false))
    decreases |edges| - i
  {
    hide GroupEnd, Emit, Merged, IsGroup;
    if edges[i].source == edges[i].target {
      group := GroupOfRecord(edges, i + 1, r);
      CompactedShape(edges, i + 1);
      SameGroup(edges, i, i + 1, group, r);
    } else {
      var end := GroupEnd(edges, i, i);
      group := edges[i..end];
      if r in Emit(Merged(group, true), Merged(group, false)) {
        SuffixGroup(edges, i);
        EmitEnds(group, r);
      } else {
        group := GroupOfRecord(edges, end, r);
        CompactedShape(edges, end);
        SameGroup(edges, i, end, group, r);
      }
    }
  }

  lemma EmitEnds(group: seq<ContractorEdge>, r: ContractorEdge)
    requires group != [] && r in Emit(Merged(group, true), Merged(group, false))
    ensures SameKey(group[0], r)
  {
  }

  /** Records in front of the group have other ends. */
  lemma SameGroup(edges: seq<ContractorEdge>, i: nat, end: nat, group: seq<ContractorEdge>, r: ContractorEdge)
    requires i < end <= |edges| && SortedBy(edges, KeyAtMost) && IsGroup(edges[end..], group) && SameKey(group[0], r)
    requires forall k :: i <= k < end ==> SameKey(edges[k], edges[i])
    requires end < |edges| ==> !SameKey(edges[end], edges[i]) || edges[i].source == edges[i].target
    requires r.source != r.target && end < |edges| && KeyAtMost(edges[end], r)
    ensures IsGroup(edges[i..], group)
  {
    assert KeyAtMost(edges[i], edges[end]);
    assert !SameKey(edges[i], r);
    forall e | e in edges[i..] && SameKey(e, group[0]) ensures e in group {
      var k :| i <= k < |edges| && edges[k] == e;
      assert end <= k && edges[k] == edges[end..][k - end];
    }
    forall e | e in group ensures e in edges[i..] {
      var k :| 0 <= k < |edges[end..]| && edges[end..][k] == e;
      assert edges[i..][end - i + k] == e;
    }
  }

  predicate OfInput(e: ContractorEdge, x: InputEdge) {
    e.weight == Clamped(x.weight) && e.duration == x.duration && e.distance == x.distance
  }

  /** What a record at (a, b) says when it is open forward, or backward, is said by input edges from a to b, or from b
      to a. */
  predicate LeadsAlong(x: InputEdge, a: NodeID, b: NodeID, fwd: bool) {
    if fwd then Leads(x, a, b) else Leads(x, b, a)
  }

  /** The group of (a, b) records exactly the input edges of one direction of travel. */
  ghost predicate GroupLeads(input: seq<InputEdge>, group: seq<ContractorEdge>, a: NodeID, b: NodeID, fwd: bool) {
    && (forall x :: x in input && LeadsAlong(x, a, b, fwd) ==>
          exists e :: e in group && OfInput(e, x) && Selects(e, a, b, fwd))
    && forall e :: e in group && Selects(e, a, b, fwd) ==>
         exists x :: x in input && LeadsAlong(x, a, b, fwd) && OfInput(e, x)
  }

  lemma MirroredGroup(input: seq<InputEdge>, sorted: seq<ContractorEdge>, group: seq<ContractorEdge>, a: NodeID,
          b: NodeID, fwd: bool)
    requires IsSorting(Mirror(input), sorted, KeyAtMost) && IsGroup(sorted, group) && a != b
    requires group[0].source == a && group[0].target == b
    ensures GroupLeads(input, group, a, b, fwd)
  {
    hide Mirror, Clamped, KeyAtMost;
    SortingKeepsLength(Mirror(input), sorted, KeyAtMost);
    MirrorMembers(input);
    forall x | x in input && LeadsAlong(x, a, b, fwd)
        ensures exists e :: e in group && OfInput(e, x) && Selects(e, a, b, fwd)
    {
      var e := if x.source == a then Forward(x) else Reverse(x);
      assert e in Mirror(input) && e in sorted && e in group;
    }
    forall e | e in group && Selects(e, a, b, fwd)
        ensures exists x :: x in input && LeadsAlong(x, a, b, fwd) && OfInput(e, x)
    {
      var x :| x in input && x.weight != 0x7fff_ffff && (e == Forward(x) || e == Reverse(x));
    }
  }

  /** The weight of a record at (a, b) that is open in a direction: the least input weight of that direction of travel,
      raised to 1. */
  ghost predicate LeastWeightOfInput(input: seq<InputEdge>, weight: int, a: NodeID, b: NodeID, fwd: bool) {
    && 1 <= weight < 0x7fff_ffff
    && (exists x :: x in input && LeadsAlong(x, a, b, fwd) && if x.weight < 1 then weight == 1 else weight == x.weight)
    && forall x :: x in input && LeadsAlong(x, a, b, fwd) ==> weight <= if x.weight < 1 then 1 else x.weight
  }

  ghost predicate LeastDurationOfInput(input: seq<InputEdge>, duration: int, a: NodeID, b: NodeID, fwd: bool) {
    && (duration == 0x7fff_ffff || exists x :: x in input && LeadsAlong(x, a, b, fwd) && duration == x.duration)
    && forall x :: x in input && LeadsAlong(x, a, b, fwd) ==> duration <= x.duration
  }

  ghost predicate LeastDistanceOfInput(input: seq<InputEdge>, distance: real, a: NodeID, b: NodeID, fwd: bool) {
    && (distance == 340282346638528859811704183484516925440.0
        || exists x :: x in input && LeadsAlong(x, a, b, fwd) && distance == x.distance)
    && forall x :: x in input && LeadsAlong(x, a, b, fwd) ==> distance <= x.distance
  }

  lemma RecordFor(input: seq<InputEdge>, group: seq<ContractorEdge>, a: NodeID, b: NodeID, fwd: bool, x: InputEdge)
    returns (e: ContractorEdge)
    requires GroupLeads(input, group, a, b, fwd) && x in input && LeadsAlong(x, a, b, fwd)
    ensures e in group && OfInput(e, x) && Selects(e, a, b, fwd)
  {
    hide OfInput, Selects, LeadsAlong;
    e :| e in group && OfInput(e, x) && Selects(e, a, b, fwd);
  }

  lemma InputFor(input: seq<InputEdge>, group: seq<ContractorEdge>, a: NodeID, b: NodeID, fwd: bool, e: ContractorEdge)
    returns (x: InputEdge)
    requires GroupLeads(input, group, a, b, fwd) && e in group && Selects(e, a, b, fwd)
    ensures x in input && LeadsAlong(x, a, b, fwd) && OfInput(e, x)
  {
    hide OfInput, Selects, LeadsAlong;
    x :| x in input && LeadsAlong(x, a, b, fwd) && OfInput(e, x);
  }

  lemma GroupWeight(input: seq<InputEdge>, group: seq<ContractorEdge>, a: NodeID, b: NodeID, fwd: bool)
    requires GroupLeads(input, group, a, b, fwd) && LeastWeight(group, a, b, fwd) != INVALID_EDGE_WEIGHT
    ensures LeastWeightOfInput(input, LeastWeight(group, a, b, fwd), a, b, fwd)
  {
    hide GroupLeads, LeastWeight, LeadsAlong, Selects;
    LeastIsMinimum(group, a, b, fwd);
    var w := LeastWeight(group, a, b, fwd);
    var e :| e in group && Selects(e, a, b, fwd) && e.weight == w;
    var x := InputFor(input, group, a, b, fwd, e);
    assert if x.weight < 1 then w == 1 else w == x.weight;
    forall y | y in input && LeadsAlong(y, a, b, fwd) ensures w <= if y.weight < 1 then 1 else y.weight {
      var f := RecordFor(input, group, a, b, fwd, y);
    }
  }

  lemma GroupDuration(input: seq<InputEdge>, group: seq<ContractorEdge>, a: NodeID, b: NodeID, fwd: bool)
    requires GroupLeads(input, group, a, b, fwd)
    ensures LeastDurationOfInput(input, LeastDuration(group, a, b, fwd), a, b, fwd)
  {
    hide GroupLeads, LeastDuration, LeadsAlong, Selects;
    LeastDurationIsMinimum(group, a, b, fwd);
    var least := LeastDuration(group, a, b, fwd);
    if e :| e in group && Selects(e, a, b, fwd) && e.duration == least {
      var x := InputFor(input, group, a, b, fwd, e);
    }
    forall y | y in input && LeadsAlong(y, a, b, fwd) ensures least <= y.duration {
      var f := RecordFor(input, group, a, b, fwd, y);
    }
  }

  lemma GroupDistance(input: seq<InputEdge>, group: seq<ContractorEdge>, a: NodeID, b: NodeID, fwd: bool)
    requires GroupLeads(input, group, a, b, fwd)
    ensures LeastDistanceOfInput(input, LeastDistance(group, a, b, fwd), a, b, fwd)
  {
    hide GroupLeads, LeastDistance, LeadsAlong, Selects;
    LeastDistanceIsMinimum(group, a, b, fwd);
    var least := LeastDistance(group, a, b, fwd);
    if e :| e in group && Selects(e, a, b, fwd) && e.distance == least {
      var x := InputFor(input, group, a, b, fwd, e);
    }
    forall y | y in input && LeadsAlong(y, a, b, fwd) ensures least <= y.distance {
      var f := RecordFor(input, group, a, b, fwd, y);
    }
  }

  lemma EmitRecord(group: seq<ContractorEdge>, r: ContractorEdge)
    requires group != [] && r in Emit(Merged(group, true), Merged(group, false))
    ensures var (s, t) := (group[0].source, group[0].target);
            && r.source == s && r.target == t && !r.shortcut && r.originalEdges == 1 && r.id == group[0].id
            && (r.forward || r.backward) && r.weight != INVALID_EDGE_WEIGHT
            && (r.forward ==> r.weight == LeastWeight(group, s, t, true))
            && (r.backward ==> r.weight == LeastWeight(group, s, t, false))
            && r.duration == LeastDuration(group, s, t, r.forward)
            && r.distance == LeastDistance(group, s, t, r.forward)
  {
    hide LeastWeight, LeastDuration, LeastDistance;
  }

  /** An input edge between the same ends, in either direction, whose turn id is the record's id. */
  ghost predicate IdFromInput(input: seq<InputEdge>, r: ContractorEdge) {
    exists x :: x in input && x.weight != 0x7fff_ffff && x.turnId == r.id
                && ((x.source == r.source && x.target == r.target) || (x.source == r.target && x.target == r.source))
  }

  lemma GroupId(input: seq<InputEdge>, sorted: seq<ContractorEdge>, e: ContractorEdge)
    requires IsSorting(Mirror(input), sorted, KeyAtMost) && e in sorted
    ensures IdFromInput(input, e)
  {
    hide Mirror, KeyAtMost;
    SortingKeepsLength(Mirror(input), sorted, KeyAtMost);
    MirrorMembers(input);
  }

  /** One output record: in each direction that it is open in, its weight is the least of the input. Its duration and
      distance are the least ones of its forward direction, and of the backward one only when it is not open forward:
      one record for both directions keeps those of the first. */
  lemma RecordOfConversion(input: seq<InputEdge>, edges: seq<ContractorEdge>, r: ContractorEdge)
    requires IsConversion(input, edges) && r in edges
    ensures r.source != r.target && (r.forward || r.backward) && !r.shortcut && r.originalEdges == 1
    ensures IdFromInput(input, r)
    ensures r.forward ==> LeastWeightOfInput(input, r.weight, r.source, r.target, true)
    ensures r.backward ==> LeastWeightOfInput(input, r.weight, r.source, r.target, false)
    ensures LeastDurationOfInput(input, r.duration, r.source, r.target, r.forward)
    ensures LeastDistanceOfInput(input, r.distance, r.source, r.target, r.forward)
  {
    hide Emit, Merged, LeastWeight, LeastDuration, LeastDistance, LeastWeightOfInput, LeastDurationOfInput,
         LeastDistanceOfInput, GroupLeads, IsGroup, Compacted, Mirror, KeyAtMost;
    var sorted :| IsSorting(Mirror(input), sorted, KeyAtMost) && edges == Compacted(sorted, 0);
    assert sorted[0..] == sorted;
    var group := GroupOfRecord(sorted, 0, r);
    GroupStarts(sorted, group);
    GroupId(input, sorted, group[0]);
    EmitRecord(group, r);
    forall fwd: bool ensures GroupLeads(input, group, r.source, r.target, fwd) {
      MirroredGroup(input, sorted, group, r.source, r.target, fwd);
    }
    if r.forward {
      GroupWeight(input, group, r.source, r.target, true);
    }
    if r.backward {
      GroupWeight(input, group, r.source, r.target, false);
    }
    GroupDuration(input, group, r.source, r.target, r.forward);
    GroupDistance(input, group, r.source, r.target, r.forward);
  }

  lemma GroupStarts(edges: seq<ContractorEdge>, group: seq<ContractorEdge>)
    requires IsGroup(edges, group)
    ensures group != [] && group[0] in edges
  {
  }

  /** Conversely every usable input edge between two nodes has its records: one that is open forward at its ends in the
      direction of travel and one that is open backward at the ends exchanged, neither heavier than the edge, raised to
      1. */
  lemma RecordsOfInput(input: seq<InputEdge>, edges: seq<ContractorEdge>, x: InputEdge, s: NodeID, t: NodeID)
    requires IsConversion(input, edges) && x in input && Leads(x, s, t) && s != t
    ensures exists r :: r in edges && r.source == s && r.target == t && r.forward
                        && r.weight <= if x.weight < 1 then 1 else x.weight
    ensures exists r :: r in edges && r.source == t && r.target == s && r.backward
                        && r.weight <= if x.weight < 1 then 1 else x.weight
  {
    hide LeastWeight, LeastInput, IsConversion;
    ConversionPreservesLeast(input, edges, s, t);
    LeastInputIsMinimum(input, s, t);
    LeastIsMinimum(edges, s, t, true);
    LeastIsMinimum(edges, t, s, false);
    assert Travels(x, s, t);
    var r :| r in edges && Selects(r, s, t, true) && r.weight == LeastWeight(edges, s, t, true);
    var q :| q in edges && Selects(q, t, s, false) && q.weight == LeastWeight(edges, t, s, false);
  }
}
