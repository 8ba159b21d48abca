/** Turning the extracted edge list into the contractor's input: every edge is mirrored, the list is sorted by
    (source, target), and each group of parallel edges is compacted in place into at most two records. */
module ContractorAdaptors {
  import opened Options
  import opened Paths
  import opened Sorting

  type EdgeWeight = w: int | -0x8000_0000 <= w <= 0x7fff_ffff
  const INVALID_EDGE_WEIGHT: EdgeWeight := 0x7fff_ffff
  const MAXIMAL_EDGE_DURATION := 0x7fff_ffff
  const MAXIMAL_EDGE_DISTANCE := 340282346638528859811704183484516925440.0

  datatype InputEdge = InputEdge(source: NodeID, target: NodeID, turnId: nat, weight: EdgeWeight, duration: int,
                                 distance: real, forward: bool, backward: bool)

  datatype ContractorEdge = ContractorEdge(source: NodeID, target: NodeID, weight: EdgeWeight, duration: int,
                                           distance: real, originalEdges: nat, id: nat, shortcut: bool, forward: bool,
                                           backward: bool)

  function MinWeight(a: EdgeWeight, b: EdgeWeight): EdgeWeight { if b < a then b else a }
  function MinInt(a: int, b: int): int { if b < a then b else a }
  function MinReal(a: real, b: real): real { if b < a then b else a }
  function Clamped(w: EdgeWeight): EdgeWeight { if w < 1 then 1 else w }

  predicate Selects(e: ContractorEdge, s: NodeID, t: NodeID, fwd: bool) {
    e.source == s && e.target == t && if fwd then e.forward else e.backward
  }

  /** The least weight among the records at (s, t) that are open in the given direction, or INVALID. */
  function LeastWeight(edges: seq<ContractorEdge>, s: NodeID, t: NodeID, fwd: bool): EdgeWeight {
    if edges == [] then INVALID_EDGE_WEIGHT
    else
      var e, least := edges[|edges| - 1], LeastWeight(edges[..|edges| - 1], s, t, fwd);
      if Selects(e, s, t, fwd) then MinWeight(e.weight, least) else least
  }

  function LeastDuration(edges: seq<ContractorEdge>, s: NodeID, t: NodeID, fwd: bool): int {
    if edges == [] then MAXIMAL_EDGE_DURATION
    else
      var e, least := edges[|edges| - 1], LeastDuration(edges[..|edges| - 1], s, t, fwd);
      if Selects(e, s, t, fwd) then MinInt(e.duration, least) else least
  }

  function LeastDistance(edges: seq<ContractorEdge>, s: NodeID, t: NodeID, fwd: bool): real {
    if edges == [] then MAXIMAL_EDGE_DISTANCE
    else
      var e, least := edges[|edges| - 1], LeastDistance(edges[..|edges| - 1], s, t, fwd);
      if Selects(e, s, t, fwd) then MinReal(e.distance, least) else least
  }

  /** The least clamped weight of a usable input edge that can be travelled from `s` to `t`, or INVALID. */
  function LeastInput(input: seq<InputEdge>, s: NodeID, t: NodeID): EdgeWeight {
    if input == [] then INVALID_EDGE_WEIGHT
    else
      var e, least := input[|input| - 1], LeastInput(input[..|input| - 1], s, t);
      if Travels(e, s, t) then MinWeight(Clamped(e.weight), least) else least
  }

  predicate Travels(e: InputEdge, s: NodeID, t: NodeID) {
    e.weight != INVALID_EDGE_WEIGHT
        && ((e.source == s && e.target == t && e.forward) || (e.source == t && e.target == s && e.backward))
  }

  lemma {:induction false} LeastConcat(a: seq<ContractorEdge>, b: seq<ContractorEdge>, s: NodeID, t: NodeID, fwd: bool)
    ensures LeastWeight(a + b, s, t, fwd) == MinWeight(LeastWeight(a, s, t, fwd), LeastWeight(b, s, t, fwd))
  {
    if b == [] {
      assert a + b == a;
    } else {
      LeastConcat(a, b[..|b| - 1], s, t, fwd);
      assert (a + b)[..|a + b| - 1] == a + b[..|b| - 1];
    }
  }

  function WeightIf(e: ContractorEdge, s: NodeID, t: NodeID, fwd: bool): EdgeWeight {
    if Selects(e, s, t, fwd) then e.weight else INVALID_EDGE_WEIGHT
  }

  lemma LeastOfOne(e: ContractorEdge, s: NodeID, t: NodeID, fwd: bool)
    ensures LeastWeight([e], s, t, fwd) == WeightIf(e, s, t, fwd)
  {
    assert [e][..0] == [];
  }

  lemma LeastOfTwo(e: ContractorEdge, f: ContractorEdge, s: NodeID, t: NodeID, fwd: bool)
    ensures LeastWeight([e, f], s, t, fwd) == MinWeight(WeightIf(e, s, t, fwd), WeightIf(f, s, t, fwd))
  {
    LeastOfOne(e, s, t, fwd);
    LeastOfOne(f, s, t, fwd);
    LeastConcat([e], [f], s, t, fwd);
    assert [e] + [f] == [e, f];
  }

  /** The minimum is a lower bound that some record attains, so it depends on the multiset of records only. */
  lemma {:induction false} LeastIsMinimum(edges: seq<ContractorEdge>, s: NodeID, t: NodeID, fwd: bool)
    ensures forall e :: e in edges && Selects(e, s, t, fwd) ==> LeastWeight(edges, s, t, fwd) <= e.weight
    ensures LeastWeight(edges, s, t, fwd) == INVALID_EDGE_WEIGHT
            || exists e :: e in edges && Selects(e, s, t, fwd) && e.weight == LeastWeight(edges, s, t, fwd)
  {
    if edges != [] {
      var front, last := edges[..|edges| - 1], edges[|edges| - 1];
      LeastIsMinimum(front, s, t, fwd);
      assert edges == front + [last];
      if Selects(last, s, t, fwd) && last.weight <= LeastWeight(front, s, t, fwd) {
        assert last in edges && last.weight == LeastWeight(edges, s, t, fwd);
      } else if LeastWeight(front, s, t, fwd) != INVALID_EDGE_WEIGHT {
        var e :| e in front && Selects(e, s, t, fwd) && e.weight == LeastWeight(front, s, t, fwd);
        assert e in edges;
      }
    }
  }

  lemma LeastOfPermutation(a: seq<ContractorEdge>, b: seq<ContractorEdge>, s: NodeID, t: NodeID, fwd: bool)
    requires multiset(a) == multiset(b)
    ensures LeastWeight(a, s, t, fwd) == LeastWeight(b, s, t, fwd)
  {
    LeastIsMinimum(a, s, t, fwd);
    LeastIsMinimum(b, s, t, fwd);
    forall e ensures e in a <==> e in b {
      assert e in multiset(a) <==> e in multiset(b);
    }
  }

  function Forward(e: InputEdge): ContractorEdge {
    ContractorEdge(e.source, e.target, Clamped(e.weight), e.duration, e.distance, 1, e.turnId, false, e.forward,
        e.backward)
  }

  function Reverse(e: InputEdge): ContractorEdge {
    ContractorEdge(e.target, e.source, Clamped(e.weight), e.duration, e.distance, 1, e.turnId, false, e.backward,
        e.forward)
  }

  /** The mirrored list of the usable edges. */
  function Mirror(input: seq<InputEdge>): seq<ContractorEdge> {
    if input == [] then []
    else
      var e := input[|input| - 1];
      Mirror(input[..|input| - 1]) + if e.weight == INVALID_EDGE_WEIGHT then [] else [Forward(e), Reverse(e)]
  }

  /** Mirroring records every direction twice: forward at (s, t) and backward at (t, s). */
  lemma {:induction false} MirrorLeast(input: seq<InputEdge>, s: NodeID, t: NodeID)
    ensures LeastWeight(Mirror(input), s, t, true) == LeastInput(input, s, t)
    ensures LeastWeight(Mirror(input), t, s, false) == LeastInput(input, s, t)
  {
    if input != [] {
      var front, e := input[..|input| - 1], input[|input| - 1];
      MirrorLeast(front, s, t);
      if e.weight != INVALID_EDGE_WEIGHT {
        var pair := [Forward(e), Reverse(e)];
        LeastOfTwo(Forward(e), Reverse(e), s, t, true);
        LeastOfTwo(Forward(e), Reverse(e), t, s, false);
        LeastConcat(Mirror(front), pair, s, t, true);
        LeastConcat(Mirror(front), pair, t, s, false);
      } else {
        assert Mirror(input) == Mirror(front);
      }
    }
  }

  predicate KeyAtMost(a: ContractorEdge, b: ContractorEdge) {
    a.source < b.source || (a.source == b.source && a.target <= b.target)
  }

  predicate SameKey(a: ContractorEdge, b: ContractorEdge) {
    a.source == b.source && a.target == b.target
  }

  /** The end of the run of records with the key of record `i`. */
  function GroupEnd(edges: seq<ContractorEdge>, i: nat, from: nat): (end: nat)
    requires i < |edges| && i <= from <= |edges|
    requires forall k :: i <= k < from ==> SameKey(edges[k], edges[i])
    ensures from <= end <= |edges| && i < end
    ensures forall k :: i <= k < end ==> SameKey(edges[k], edges[i])
    ensures end < |edges| ==> !SameKey(edges[end], edges[i])
    decreases |edges| - from
  {
    if from < |edges| && SameKey(edges[from], edges[i]) then GroupEnd(edges, i, from + 1) else from
  }

  /** One direction of a merged group; the three minima are taken independently. */
  function Merged(group: seq<ContractorEdge>, fwd: bool): ContractorEdge
    requires group != []
  {
    var s, t := group[0].source, group[0].target;
    ContractorEdge(s, t, LeastWeight(group, s, t, fwd), LeastDuration(group, s, t, fwd),
        LeastDistance(group, s, t, fwd),
                   1, group[0].id, false, fwd, !fwd)
  }

  function Emit(forward: ContractorEdge, reverse: ContractorEdge): seq<ContractorEdge> {
    if forward.weight == reverse.weight then
      if forward.weight != INVALID_EDGE_WEIGHT then [forward.(backward := true)] else []
    else
      (if forward.weight != INVALID_EDGE_WEIGHT then [forward] else []) +
      (if reverse.weight != INVALID_EDGE_WEIGHT then [reverse] else [])
  }

  function Compacted(edges: seq<ContractorEdge>, i: nat): seq<ContractorEdge>
    requires i <= |edges|
    decreases |edges| - i
  {
    if i == |edges| then []
    else if edges[i].source == edges[i].target then Compacted(edges, i + 1)
    else
      var end := GroupEnd(edges, i, i);
      Emit(Merged(edges[i..end], true), Merged(edges[i..end], false)) + Compacted(edges, end)
  }

  lemma {:induction false} NoOtherKey(edges: seq<ContractorEdge>, s: NodeID, t: NodeID, fwd: bool)
    requires forall e :: e in edges ==> !(e.source == s && e.target == t)
    ensures LeastWeight(edges, s, t, fwd) == INVALID_EDGE_WEIGHT
  {
    LeastIsMinimum(edges, s, t, fwd);
  }

  lemma EmitLeast(group: seq<ContractorEdge>, s: NodeID, t: NodeID, fwd: bool)
    requires group != [] && forall k :: 0 <= k < |group| ==> SameKey(group[k], group[0])
    ensures LeastWeight(Emit(Merged(group, true), Merged(group, false)), s, t, fwd) == LeastWeight(group, s, t, fwd)
  {
    var out := Emit(Merged(group, true), Merged(group, false));
    if s == group[0].source && t == group[0].target {
      if |out| == 2 {
        LeastOfTwo(out[0], out[1], s, t, fwd);
      } else if |out| == 1 {
        LeastOfOne(out[0], s, t, fwd);
      }
    } else {
      NoOtherKey(group, s, t, fwd);
      NoOtherKey(out, s, t, fwd);
    }
  }

  /** Compaction preserves the least weight of every pair of distinct nodes in both kinds of record. */
  lemma {:induction false} CompactedLeast(edges: seq<ContractorEdge>, i: nat, s: NodeID, t: NodeID, fwd: bool)
    requires i <= |edges| && s != t
    ensures LeastWeight(Compacted(edges, i), s, t, fwd) == LeastWeight(edges[i..], s, t, fwd)
    decreases |edges| - i
  {
    hide LeastWeight, Emit, Merged;
    if i == |edges| {
      assert edges[i..] == [];
    } else if edges[i].source == edges[i].target {
      CompactedLeast(edges, i + 1, s, t, fwd);
      assert edges[i..] == [edges[i]] + edges[i + 1..];
      LeastConcat([edges[i]], edges[i + 1..], s, t, fwd);
      LeastOfOne(edges[i], s, t, fwd);
    } else {
      var end := GroupEnd(edges, i, i);
      var group := edges[i..end];
      CompactedLeast(edges, end, s, t, fwd);
      EmitLeast(group, s, t, fwd);
      assert edges[i..] == group + edges[end..];
      LeastConcat(group, edges[end..], s, t, fwd);
      LeastConcat(Emit(Merged(group, true), Merged(group, false)), Compacted(edges, end), s, t, fwd);
    }
  }

  /** A group of one record yields at most one: both directions carry the same weight, so they are merged or absent. */
  lemma EmitFits(group: seq<ContractorEdge>)
    requires group != []
    ensures |Emit(Merged(group, true), Merged(group, false))| <= |group|
  {
    if |group| == 1 {
      LeastOfOne(group[0], group[0].source, group[0].target, true);
      LeastOfOne(group[0], group[0].source, group[0].target, false);
      assert group == [group[0]];
    }
  }

  lemma {:induction false} GroupEndOfSuffix(a: seq<ContractorEdge>, b: seq<ContractorEdge>, i: nat, from: nat)
    requires |a| == |b| && i < |a| && i <= from <= |a| && a[i..] == b[i..]
    requires forall k :: i <= k < from ==> SameKey(a[k], a[i])
    requires forall k :: i <= k < from ==> SameKey(b[k], b[i])
    ensures GroupEnd(a, i, from) == GroupEnd(b, i, from)
    decreases |a| - from
  {
    assert forall k :: i <= k < |a| ==> a[k] == a[i..][k - i] == b[k];
    if from < |a| && SameKey(a[from], a[i]) {
      GroupEndOfSuffix(a, b, i, from + 1);
    }
  }

  /** The compaction loop, in place: `edge` is where the next record is written and never passes the read index `i`. */
  method Compact(edges: array<ContractorEdge>) returns (edge: nat)
    modifies edges
    ensures edge <= edges.Length && edges[..edge] == Compacted(old(edges[..]), 0)
  {
    hide Emit, Merged, GroupEnd;
    ghost var was := edges[..];
    edge := 0;
    var i: nat := 0;
    while i < edges.Length
      invariant edge <= i <= edges.Length
      invariant edges[i..] == was[i..]
      invariant edges[..edge] + Compacted(was, i) == Compacted(was, 0)
    {
      assert edges[i] == edges[i..][0] == was[i];
      if edges[i].source == edges[i].target {
        i := i + 1;
        continue;
      }
      i, edge := CompactGroup(edges, edge, i, was);
    }
  }

  method CompactGroup(edges: array<ContractorEdge>, edge: nat, start: nat, ghost was: seq<ContractorEdge>)
    returns (i: nat, next: nat)
    requires edge <= start < edges.Length == |was| && edges[start..] == was[start..]
             && was[start].source != was[start].target
    modifies edges
    ensures next <= i <= edges.Length && start < i && edges[i..] == was[i..]
    ensures edges[..next] + Compacted(was, i) == old(edges[..edge]) + Compacted(was, start)
  {
    hide Emit, Merged, GroupEnd, Compacted;
    var forward, reverse;
    ghost var now := edges[..];
    i, forward, reverse := MergeGroup(edges, start);
    assert edges[start..i] == now[start..i];
    GroupOfSuffix(now, was, edge, start, forward, reverse);
    assert edges[i..] == now[i..] && edges[..edge] == now[..edge];
    next := WritePair(edges, edge, i, forward, reverse);
  }

  /** What the group at `start` contributes, read from the partly overwritten array. */
  lemma GroupOfSuffix(now: seq<ContractorEdge>, was: seq<ContractorEdge>, edge: nat, start: nat,
          forward: ContractorEdge, reverse: ContractorEdge)
    requires edge <= start < |now| == |was| && now[start..] == was[start..] && was[start].source != was[start].target
    requires var i := GroupEnd(now, start, start);
             forward == Merged(now[start..i], true) && reverse == Merged(now[start..i], false)
    ensures var i := GroupEnd(now, start, start);
            && |Emit(forward, reverse)| <= i - start && now[i..] == was[i..]
            && (now[..edge] + Emit(forward, reverse)) + Compacted(was, i) == now[..edge] + Compacted(was, start)
  {
    var i := GroupEnd(now, start, start);
    GroupEndOfSuffix(now, was, start, start);
    assert now[start..i] == now[start..][..i - start] == was[start..i];
    assert now[i..] == now[start..][i - start..] == was[i..];
    EmitFits(was[start..i]);
    assert (now[..edge] + Emit(forward, reverse)) + Compacted(was, i)
           == now[..edge] + (Emit(forward, reverse) + Compacted(was, i));
  }

  lemma MinStep(edges: seq<ContractorEdge>, start: nat, i: nat, s: NodeID, t: NodeID, fwd: bool)
    requires start <= i < |edges|
    ensures var w := LeastWeight(edges[start..i], s, t, fwd);
            LeastWeight(edges[start..i + 1], s, t, fwd) == if Selects(edges[i], s, t, fwd)
                then MinWeight(edges[i].weight, w) else w
    ensures var d := LeastDuration(edges[start..i], s, t, fwd);
            LeastDuration(edges[start..i + 1], s, t, fwd) == if Selects(edges[i], s, t, fwd)
                then MinInt(edges[i].duration, d) else d
    ensures var d := LeastDistance(edges[start..i], s, t, fwd);
            LeastDistance(edges[start..i + 1], s, t, fwd) == if Selects(edges[i], s, t, fwd)
                then MinReal(edges[i].distance, d) else d
  {
    assert edges[start..i + 1][..i - start] == edges[start..i];
  }

  /** The scan of one group of parallel edges. */
  method MergeGroup(edges: array<ContractorEdge>, start: nat)
    returns (i: nat, forward: ContractorEdge, reverse: ContractorEdge)
    requires start < edges.Length
    ensures i == GroupEnd(edges[..], start, start)
    ensures forward == Merged(edges[start..i], true) && reverse == Merged(edges[start..i], false)
  {
    var source, target, id := edges[start].source, edges[start].target, edges[start].id;
    forward := ContractorEdge(source, target, INVALID_EDGE_WEIGHT, MAXIMAL_EDGE_DURATION, MAXIMAL_EDGE_DISTANCE, 1, id,
        false, true, false);
    reverse := forward.(forward := false, backward := true);
    i := start;
    while i < edges.Length && edges[i].source == source && edges[i].target == target
      invariant start <= i <= edges.Length
      invariant forall k :: start <= k < i ==> SameKey(edges[k], edges[start])
      invariant GroupEnd(edges[..], start, start) == GroupEnd(edges[..], start, i)
      invariant forward == ContractorEdge(source, target, LeastWeight(edges[start..i], source, target, true),
                                          LeastDuration(edges[start..i], source, target, true),
                                          LeastDistance(edges[start..i], source, target, true), 1, id, false, true,
                                              false)
      invariant reverse == ContractorEdge(source, target, LeastWeight(edges[start..i], source, target, false),
                                          LeastDuration(edges[start..i], source, target, false),
                                          LeastDistance(edges[start..i], source, target, false), 1, id, false, false,
                                              true)
    {
      MinStep(edges[..], start, i, source, target, true);
      MinStep(edges[..], start, i, source, target, false);
      assert edges[..][start..i] == edges[start..i] && edges[..][start..i + 1] == edges[start..i + 1];
      var e := edges[i];
      if e.forward {
        forward := forward.(weight := MinWeight(e.weight, forward.weight),
            duration := MinInt(e.duration, forward.duration),
                            distance := MinReal(e.distance, forward.distance));
      }
      if e.backward {
        reverse := reverse.(weight := MinWeight(e.weight, reverse.weight),
            duration := MinInt(e.duration, reverse.duration),
                            distance := MinReal(e.distance, reverse.distance));
      }
      i := i + 1;
    }
  }

  method WritePair(edges: array<ContractorEdge>, edge: nat, limit: nat, forward: ContractorEdge,
          reverse: ContractorEdge) returns (next: nat)
    requires edge + |Emit(forward, reverse)| <= limit <= edges.Length
    modifies edges
    ensures next == edge + |Emit(forward, reverse)| && edges[..next] == old(edges[..edge]) + Emit(forward, reverse)
    ensures edges[limit..] == old(edges[limit..])
  {
    next := edge;
    if forward.weight == reverse.weight {
      if forward.weight != INVALID_EDGE_WEIGHT {
        edges[next] := forward.(backward := true);
        next := next + 1;
      }
    } else {
      if forward.weight != INVALID_EDGE_WEIGHT {
        edges[next] := forward;
        next := next + 1;
      }
      if reverse.weight != INVALID_EDGE_WEIGHT {
        edges[next] := reverse;
        next := next + 1;
      }
    }
  }

  /** What the conversion may produce, whichever way the sort orders parallel edges. */
  ghost predicate IsConversion(input: seq<InputEdge>, edges: seq<ContractorEdge>) {
    exists sorted :: IsSorting(Mirror(input), sorted, KeyAtMost) && edges == Compacted(sorted, 0)
  }

  lemma MirrorNone()
    ensures Mirror([]) == []
  {
  }

  lemma KeyPreorder()
    ensures TotalPreorder(KeyAtMost)
  {
  }

  lemma MirrorStep(input: seq<InputEdge>, k: nat)
    requires k < |input|
    ensures var e := input[k];
            Mirror(input[..k + 1]) == if e.weight == INVALID_EDGE_WEIGHT then Mirror(input[..k])
                                      else Mirror(input[..k]) + [Forward(e)] + [Reverse(e)]
  {
    assert input[..k + 1][..k] == input[..k];
  }

  /** The whole conversion: mirror, sort, compact in place, cut the vector to the written part. */
  method ToContractorGraph(input: seq<InputEdge>) returns (edges: seq<ContractorEdge>)
    ensures IsConversion(input, edges)
  {
    hide Mirror, Forward, Reverse, Compacted, KeyAtMost;
    MirrorNone();
    var mirrored: seq<ContractorEdge> := [];
    for k := 0 to |input|
      invariant mirrored == Mirror(input[..k])
    {
      MirrorStep(input, k);
      if input[k].weight == INVALID_EDGE_WEIGHT {
        continue;
      }
      mirrored := mirrored + [Forward(input[k])];
      mirrored := mirrored + [Reverse(input[k])];
    }
    assert input[..|input|] == input;
    KeyPreorder();
    var sorted := ParallelSort(mirrored, KeyAtMost);
    var vector := new ContractorEdge[|sorted|](k requires 0 <= k < |sorted| => sorted[k]);
    assert vector[..] == sorted;
    var edge := Compact(vector);
    edges := vector[..edge];
  }

  /** For distinct nodes the least weight s -> t of the output, read from forward records at (s, t) or from
      backward records at (t, s), is the least clamped weight s -> t of the usable input. */
  lemma ConversionPreservesLeast(input: seq<InputEdge>, edges: seq<ContractorEdge>, s: NodeID, t: NodeID)
    requires s != t && IsConversion(input, edges)
    ensures LeastWeight(edges, s, t, true) == LeastInput(input, s, t)
    ensures LeastWeight(edges, t, s, false) == LeastInput(input, s, t)
  {
    var sorted :| IsSorting(Mirror(input), sorted, KeyAtMost) && edges == Compacted(sorted, 0);
    MirrorLeast(input, s, t);
    LeastOfPermutation(Mirror(input), sorted, s, t, true);
    LeastOfPermutation(Mirror(input), sorted, t, s, false);
    assert sorted[0..] == sorted;
    CompactedLeast(sorted, 0, s, t, true);
    CompactedLeast(sorted, 0, t, s, false);
  }

  ghost predicate Usable(e: ContractorEdge) {
    e.source != e.target && e.weight != INVALID_EDGE_WEIGHT && (e.forward || e.backward)
  }

  ghost predicate AtMostOnePerDirection(edges: seq<ContractorEdge>) {
    forall i, j :: 0 <= i < j < |edges| && SameKey(edges[i], edges[j]) ==>
      !(edges[i].forward && edges[j].forward) && !(edges[i].backward && edges[j].backward)
  }

  lemma ConcatOnePerDirection(a: seq<ContractorEdge>, b: seq<ContractorEdge>)
    requires AtMostOnePerDirection(a) && AtMostOnePerDirection(b)
    requires forall x, y :: x in a && y in b ==> !SameKey(x, y)
    ensures AtMostOnePerDirection(a + b)
  {
  }

  lemma NoRecords()
    ensures AtMostOnePerDirection([])
  {
  }

  /** What a group of records contributes. */
  lemma EmitShape(group: seq<ContractorEdge>)
    requires group != [] && group[0].source != group[0].target
    ensures var out := Emit(Merged(group, true), Merged(group, false));
            (forall e :: e in out ==> SameKey(e, group[0]) && Usable(e)) && AtMostOnePerDirection(out)
  {
    hide LeastWeight, LeastDuration, LeastDistance;
  }

  lemma KeyTransitive(a: ContractorEdge, b: ContractorEdge, c: ContractorEdge)
    requires KeyAtMost(a, b) && !SameKey(b, a) && KeyAtMost(b, c)
    ensures KeyAtMost(a, c) && !SameKey(c, a)
  {
  }

  /** No loops, no INVALID weights, and per ordered pair at most one forward and at most one backward record. */
  lemma {:induction false} CompactedShape(edges: seq<ContractorEdge>, i: nat)
    requires i <= |edges| && SortedBy(edges, KeyAtMost)
    ensures forall e :: e in Compacted(edges, i) ==> Usable(e)
    ensures forall e :: e in Compacted(edges, i) ==> i < |edges| && KeyAtMost(edges[i], e)
    ensures AtMostOnePerDirection(Compacted(edges, i))
    decreases |edges| - i
  {
    hide Emit, Merged, Usable, GroupEnd, AtMostOnePerDirection;
    NoRecords();
    if i < |edges| {
      if edges[i].source == edges[i].target {
        CompactedShape(edges, i + 1);
      } else {
        var end := GroupEnd(edges, i, i);
        CompactedShape(edges, end);
        EmitShape(edges[i..end]);
        var out := Emit(Merged(edges[i..end], true), Merged(edges[i..end], false));
        forall e | e in Compacted(edges, end) ensures !SameKey(e, edges[i]) && KeyAtMost(edges[i], e) {
          assert KeyAtMost(edges[i], edges[end]) && KeyAtMost(edges[end], e);
          KeyTransitive(edges[i], edges[end], e);
        }
        forall x, y | x in out && y in Compacted(edges, end) ensures !SameKey(x, y) {
          assert SameKey(x, edges[i]);
        }
        ConcatOnePerDirection(out, Compacted(edges, end));
      }
    }
  }

  lemma ConversionShape(input: seq<InputEdge>, edges: seq<ContractorEdge>)
    requires IsConversion(input, edges)
    ensures forall e :: e in edges ==> Usable(e)
    ensures AtMostOnePerDirection(edges)
  {
    var sorted :| IsSorting(Mirror(input), sorted, KeyAtMost) && edges == Compacted(sorted, 0);
    CompactedShape(sorted, 0);
  }

  function WeightCost(w: EdgeWeight): Cost {
    Cost(w, 0, 0.0)
  }

  ghost predicate InputArc(input: seq<InputEdge>, a: Arc) {
    exists e :: e in input && Travels(e, a.from, a.to) && a.cost == WeightCost(Clamped(e.weight))
  }

  ghost predicate OutputArc(edges: seq<ContractorEdge>, a: Arc) {
    exists e :: e in edges && (Selects(e, a.from, a.to, true) || Selects(e, a.to, a.from, false))
                && a.cost == WeightCost(e.weight)
  }

  ghost function InputArcs(input: seq<InputEdge>): Arcs {
    iset a | InputArc(input, a)
  }

  ghost function OutputArcs(edges: seq<ContractorEdge>): Arcs {
    iset a | OutputArc(edges, a)
  }

  lemma {:induction false} LeastInputIsMinimum(input: seq<InputEdge>, s: NodeID, t: NodeID)
    ensures forall e :: e in input && Travels(e, s, t) ==> LeastInput(input, s, t) <= Clamped(e.weight)
    ensures LeastInput(input, s, t) == INVALID_EDGE_WEIGHT
            || exists e :: e in input && Travels(e, s, t) && Clamped(e.weight) == LeastInput(input, s, t)
  {
    if input != [] {
      var front, last := input[..|input| - 1], input[|input| - 1];
      LeastInputIsMinimum(front, s, t);
      assert input == front + [last];
      if Travels(last, s, t) && Clamped(last.weight) <= LeastInput(front, s, t) {
        assert last in input && Clamped(last.weight) == LeastInput(input, s, t);
      } else if LeastInput(front, s, t) != INVALID_EDGE_WEIGHT {
        var e :| e in front && Travels(e, s, t) && Clamped(e.weight) == LeastInput(front, s, t);
        assert e in input;
      }
    }
  }

  lemma OutputCovers(input: seq<InputEdge>, edges: seq<ContractorEdge>)
    requires IsConversion(input, edges)
    ensures Covers(OutputArcs(edges), InputArcs(input))
  {
    forall a {:trigger Leaves(a)} | a in InputArcs(input) && Leaves(a)
      ensures exists b :: b in OutputArcs(edges) && b.from == a.from && b.to == a.to && AtMost(b.cost, a.cost)
    {
      LeastInputIsMinimum(input, a.from, a.to);
      ConversionPreservesLeast(input, edges, a.from, a.to);
      LeastIsMinimum(edges, a.from, a.to, true);
      var e :| e in edges && Selects(e, a.from, a.to, true) && e.weight == LeastWeight(edges, a.from, a.to, true);
      var b := Arc(a.from, a.to, WeightCost(e.weight));
      assert OutputArc(edges, b);
    }
  }

  lemma InputCovers(input: seq<InputEdge>, edges: seq<ContractorEdge>)
    requires IsConversion(input, edges)
    ensures Covers(InputArcs(input), OutputArcs(edges))
  {
    forall a {:trigger Leaves(a)} | a in OutputArcs(edges) && Leaves(a)
      ensures exists b :: b in InputArcs(input) && b.from == a.from && b.to == a.to && AtMost(b.cost, a.cost)
    {
      ConversionPreservesLeast(input, edges, a.from, a.to);
      LeastIsMinimum(edges, a.from, a.to, true);
      LeastIsMinimum(edges, a.to, a.from, false);
      ConversionShape(input, edges);
      LeastInputIsMinimum(input, a.from, a.to);
      var e :| e in input && Travels(e, a.from, a.to) && Clamped(e.weight) == LeastInput(input, a.from, a.to);
      var b := Arc(a.from, a.to, WeightCost(Clamped(e.weight)));
      assert InputArc(input, b);
    }
  }

  /** All shortest-path weights are unchanged. */
  lemma ConversionPreservesDistances(input: seq<InputEdge>, edges: seq<ContractorEdge>, s: NodeID, t: NodeID,
          d: Option<Cost>)
    requires IsConversion(input, edges)
    ensures IsDistance(InputArcs(input), s, t, d) <==> IsDistance(OutputArcs(edges), s, t, d)
  {
    var one, other := InputArcs(input), OutputArcs(edges);
    InputCovers(input, edges);
    OutputCovers(input, edges);
    OutputPositive(input, edges);
    assert Positive(one);
    if IsDistance(one, s, t, d) {
      CoveredDistance(one, other, s, t, d);
    }
    if IsDistance(other, s, t, d) {
      CoveredDistance(other, one, s, t, d);
    }
  }

  lemma OutputPositive(input: seq<InputEdge>, edges: seq<ContractorEdge>)
    requires IsConversion(input, edges)
    ensures Positive(OutputArcs(edges))
  {
    forall a | a in OutputArcs(edges) ensures 0 < a.cost.weight {
      ConversionShape(input, edges);
      ConversionPreservesLeast(input, edges, a.from, a.to);
      LeastIsMinimum(edges, a.from, a.to, true);
      LeastIsMinimum(edges, a.to, a.from, false);
      LeastInputIsMinimum(input, a.from, a.to);
    }
  }
}
