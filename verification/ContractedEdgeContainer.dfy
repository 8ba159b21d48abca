/** Several contracted edge sets in one sorted vector: one flag bit per set says which sets an edge belongs to. */
module ContractedEdges {
  import opened Paths
  import opened Sorting
  import opened Permutation

  datatype QueryEdge = QueryEdge(source: NodeID, target: NodeID, turnId: nat, shortcut: bool, weight: int,
          duration: int,
                                 forward: bool, backward: bool, distance: real)
  {
    /** The fields that `mergeCompare` looks at, in its order; the distance is not among them. */
    function Key(): seq<int> {
      [source, target, Bit(shortcut), turnId, weight, duration, Bit(forward), Bit(backward)]
    }
  }

  function Bit(b: bool): int { if b then 1 else 0 }

  /** Lexicographic order, as `std::tie` compares. */
  predicate LexLess(a: seq<int>, b: seq<int>)
    requires |a| == |b|
  {
    a != [] && (a[0] < b[0] || (a[0] == b[0] && LexLess(a[1..], b[1..])))
  }

  predicate MergeCompare(l: QueryEdge, r: QueryEdge) {
    LexLess(l.Key(), r.Key())
  }

  predicate Mergable(l: QueryEdge, r: QueryEdge) {
    !MergeCompare(l, r) && !MergeCompare(r, l)
  }

  lemma {:induction false} LexTrichotomy(a: seq<int>, b: seq<int>)
    requires |a| == |b|
    ensures !(LexLess(a, b) && LexLess(b, a))
    ensures !LexLess(a, b) && !LexLess(b, a) <==> a == b
  {
    if a != [] {
      LexTrichotomy(a[1..], b[1..]);
      assert a == [a[0]] + a[1..] && b == [b[0]] + b[1..];
    }
  }

  lemma {:induction false} LexTransitive(a: seq<int>, b: seq<int>, c: seq<int>)
    requires |a| == |b| == |c|
    ensures LexLess(a, b) && !LexLess(c, b) ==> LexLess(a, c)
    ensures !LexLess(b, a) && LexLess(b, c) ==> LexLess(a, c)
    ensures !LexLess(b, a) && !LexLess(c, b) ==> !LexLess(c, a)
  {
    if a != [] {
      LexTransitive(a[1..], b[1..], c[1..]);
    }
  }

  /** `mergable` is equality of everything but the distance. */
  lemma MergableIsKeyEquality(l: QueryEdge, r: QueryEdge)
    ensures Mergable(l, r) <==> l.Key() == r.Key()
    ensures Mergable(l, r) <==> l == r.(distance := l.distance)
  {
    LexTrichotomy(l.Key(), r.Key());
    if l.Key() == r.Key() {
      assert forall i :: 0 <= i < 8 ==> l.Key()[i] == r.Key()[i];
      assert l.Key()[0] == r.Key()[0] && l.Key()[1] == r.Key()[1] && l.Key()[2] == r.Key()[2]
             && l.Key()[3] == r.Key()[3];
      assert l.Key()[4] == r.Key()[4] && l.Key()[5] == r.Key()[5] && l.Key()[6] == r.Key()[6]
             && l.Key()[7] == r.Key()[7];
    }
  }

  /** The order of the edges in the container, on their fields: by source, then target, shortcut, turn id, weight,
      duration, forward and backward, with false before true. */
  predicate FieldOrder(a: QueryEdge, b: QueryEdge) {
    a.source < b.source || (a.source == b.source && (
    a.target < b.target || (a.target == b.target && (
    (!a.shortcut && b.shortcut) || (a.shortcut == b.shortcut && (
    a.turnId < b.turnId || (a.turnId == b.turnId && (
    a.weight < b.weight || (a.weight == b.weight && (
    a.duration < b.duration || (a.duration == b.duration && (
    (!a.forward && b.forward) || (a.forward == b.forward && (
    (!a.backward && b.backward) || a.backward == b.backward))))))))))))))
  }

  ghost predicate InFieldOrder(edges: seq<QueryEdge>) {
    forall i, j :: 0 <= i < j < |edges| ==> FieldOrder(edges[i], edges[j])
  }

  lemma LexAt(a: seq<int>, b: seq<int>, i: nat)
    requires i < |a| == |b|
    ensures LexLess(a[i..], b[i..]) <==> a[i] < b[i] || (a[i] == b[i] && LexLess(a[i + 1..], b[i + 1..]))
  {
    assert a[i..][1..] == a[i + 1..] && b[i..][1..] == b[i + 1..];
  }

  lemma LexFour(a: seq<int>, b: seq<int>, i: nat)
    requires i + 4 <= |a| == |b|
    ensures LexLess(a[i..], b[i..])
            <==> a[i] < b[i] || (a[i] == b[i] && (
                 a[i + 1] < b[i + 1] || (a[i + 1] == b[i + 1] && (
                 a[i + 2] < b[i + 2] || (a[i + 2] == b[i + 2] && (
                 a[i + 3] < b[i + 3] || (a[i + 3] == b[i + 3] && LexLess(a[i + 4..], b[i + 4..]))))))))
  {
    hide LexLess;
    LexAt(a, b, i);
    LexAt(a, b, i + 1);
    LexAt(a, b, i + 2);
    LexAt(a, b, i + 3);
  }

  /** `mergeCompare` orders by the fields. */
  lemma CompareIsFieldOrder(a: QueryEdge, b: QueryEdge)
    ensures !MergeCompare(b, a) <==> FieldOrder(a, b)
  {
    hide LexLess;
    var k, l := b.Key(), a.Key();
    assert k[0..] == k && l[0..] == l;
    LexFour(k, l, 0);
    LexFour(k, l, 4);
    LexNothing(k[8..], l[8..]);
  }

  lemma LexNothing(a: seq<int>, b: seq<int>)
    requires |a| == |b| == 0
    ensures !LexLess(a, b)
  {
  }

  type MergedFlags = bv8
  const ALL_FLAGS: MergedFlags := 0xFF

  function Flag(i: nat): MergedFlags
    requires i < 8
  {
    if i == 0 then 1 else if i == 1 then 2 else if i == 2 then 4 else if i == 3 then 8
    else if i == 4 then 16 else if i == 5 then 32 else if i == 6 then 64 else 128
  }

  predicate Has(flags: MergedFlags, i: nat)
    requires i < 8
  {
    flags & Flag(i) != 0
  }

  lemma FlagOperations(flags: MergedFlags, i: nat, j: nat)
    requires i < 8 && j < 8
    ensures Has(flags | Flag(i), j) <==> i == j || Has(flags, j)
    ensures Has(flags & !Flag(i), j) <==> i != j && Has(flags, j)
    ensures Has(Flag(i), j) <==> i == j
    ensures Has(ALL_FLAGS, j)
  {
  }

  /** The keys of the edges that carry flag `i`: the i-th edge set that the container represents. */
  ghost function View(edges: seq<QueryEdge>, flags: seq<MergedFlags>, i: nat): set<seq<int>>
    requires i < 8 && |edges| == |flags|
  {
    set k | 0 <= k < |edges| && Has(flags[k], i) :: edges[k].Key()
  }

  ghost function Keys(edges: seq<QueryEdge>): set<seq<int>> {
    set e | e in edges :: e.Key()
  }

  predicate NotAfter(l: QueryEdge, r: QueryEdge) {
    !MergeCompare(r, l)
  }

  ghost predicate Sorted(edges: seq<QueryEdge>) {
    SortedBy(edges, NotAfter)
  }

  ghost predicate StrictlySorted(edges: seq<QueryEdge>) {
    forall i, j :: 0 <= i < j < |edges| ==> MergeCompare(edges[i], edges[j])
  }

  lemma SortedIsFieldOrder(edges: seq<QueryEdge>)
    ensures Sorted(edges) <==> InFieldOrder(edges)
  {
    hide MergeCompare, FieldOrder;
    forall i, j | 0 <= i < j < |edges| ensures NotAfter(edges[i], edges[j]) <==> FieldOrder(edges[i], edges[j]) {
      CompareIsFieldOrder(edges[i], edges[j]);
    }
  }

  /** The inner scan of a merge: the first old edge from `it` on that is not ordered before `e`. */
  function Advance(edges: seq<QueryEdge>, it: nat, e: QueryEdge): (at: nat)
    requires it <= |edges|
    ensures it <= at <= |edges|
    ensures forall k :: it <= k < at ==> MergeCompare(edges[k], e)
    ensures at < |edges| ==> !MergeCompare(edges[at], e)
    decreases |edges| - it
  {
    if it < |edges| && MergeCompare(edges[it], e) then Advance(edges, it + 1, e) else it
  }

  /** Where the cursor stands after looking for `e`. */
  function Seek(edges: seq<QueryEdge>, it: nat, e: QueryEdge): (at: nat)
    requires it <= |edges|
    ensures it <= at <= |edges|
  {
    if it == |edges| || MergeCompare(e, edges[it]) then it else Advance(edges, it, e)
  }

  predicate Found(edges: seq<QueryEdge>, at: nat, e: QueryEdge)
    requires at <= |edges|
  {
    at < |edges| && Mergable(e, edges[at])
  }

  /** The whole pass over the new edges: an edge that is found marks the old one, the others are kept. */
  function Scan(edges: seq<QueryEdge>, flags: seq<MergedFlags>, it: nat, news: seq<QueryEdge>, flag: MergedFlags)
    : (r: (seq<MergedFlags>, seq<QueryEdge>))
    requires it <= |edges| == |flags|
    ensures |r.0| == |edges|
    decreases |news|
  {
    if news == [] then (flags, [])
    else
      var at := Seek(edges, it, news[0]);
      if Found(edges, at, news[0]) then Scan(edges, flags[at := flags[at] | flag], at, news[1..], flag)
      else var (marked, kept) := Scan(edges, flags, at, news[1..], flag); (marked, [news[0]] + kept)
  }

  lemma MarkedFlag(flags: seq<MergedFlags>, at: nat, i: nat, j: nat, k: nat)
    requires i < 8 && j < 8 && at < |flags| && k < |flags|
    ensures Has(flags[at := flags[at] | Flag(i)][k], j) <==> Has(flags[k], j) || (k == at && i == j)
  {
    FlagOperations(flags[at], i, j);
  }

  lemma MarkView(edges: seq<QueryEdge>, flags: seq<MergedFlags>, at: nat, i: nat, j: nat)
    requires i < 8 && j < 8 && |edges| == |flags| && at < |edges|
    ensures View(edges, flags[at := flags[at] | Flag(i)], j) == View(edges, flags, j) + Only(i == j, {edges[at].Key()})
  {
    hide Has, Flag;
    var marked := flags[at := flags[at] | Flag(i)];
    forall key ensures key in View(edges, marked, j)
        <==> key in View(edges, flags, j) || (i == j && key == edges[at].Key()) {
      if key in View(edges, marked, j) {
        var k :| 0 <= k < |edges| && Has(marked[k], j) && edges[k].Key() == key;
        MarkedFlag(flags, at, i, j, k);
      }
      if key in View(edges, flags, j) {
        var k :| 0 <= k < |edges| && Has(flags[k], j) && edges[k].Key() == key;
        MarkedFlag(flags, at, i, j, k);
        assert Has(marked[k], j);
      }
      MarkedFlag(flags, at, i, j, at);
      assert i == j ==> Has(marked[at], j);
    }
  }

  /** The set when the condition holds, else nothing. */
  ghost function Only(yes: bool, keys: set<seq<int>>): set<seq<int>> {
    if yes then keys else {}
  }

  /** One step of a scan: the first new edge either marks an old one or is kept. */
  lemma ScanFirst(edges: seq<QueryEdge>, flags: seq<MergedFlags>, it: nat, e: QueryEdge, rest: seq<QueryEdge>,
          flag: MergedFlags)
    requires it <= |edges| == |flags|
    ensures var at := Seek(edges, it, e);
            Scan(edges, flags, it, [e] + rest, flag)
            == if Found(edges, at, e) then Scan(edges, flags[at := flags[at] | flag], at, rest, flag)
               else (Scan(edges, flags, at, rest, flag).0, [e] + Scan(edges, flags, at, rest, flag).1)
  {
    assert ([e] + rest)[0] == e && ([e] + rest)[1..] == rest;
  }

  lemma {:induction false} KeptFromNews(edges: seq<QueryEdge>, flags: seq<MergedFlags>, it: nat, news: seq<QueryEdge>,
          flag: MergedFlags)
    requires it <= |edges| == |flags|
    ensures forall e :: e in Scan(edges, flags, it, news, flag).1 ==> e in news
    decreases |news|
  {
    hide Seek, Found;
    if news != [] {
      var at, e, rest := Seek(edges, it, news[0]), news[0], news[1..];
      assert news == [e] + rest;
      ScanFirst(edges, flags, it, e, rest, flag);
      if Found(edges, at, e) {
        FoundInside(edges, at, e);
        KeptFromNews(edges, flags[at := flags[at] | flag], at, rest, flag);
      } else {
        KeptFromNews(edges, flags, at, rest, flag);
      }
    }
  }

  lemma FoundInside(edges: seq<QueryEdge>, at: nat, e: QueryEdge)
    requires at <= |edges| && Found(edges, at, e)
    ensures at < |edges| && edges[at].Key() == e.Key()
  {
    MergableIsKeyEquality(e, edges[at]);
  }

  /** What a scan with flag `i` owes to view `j`. */
  ghost predicate ScanAdds(edges: seq<QueryEdge>, flags: seq<MergedFlags>, it: nat, news: seq<QueryEdge>, i: nat,
          j: nat)
    requires i < 8 && j < 8 && it <= |edges| == |flags|
  {
    var (marked, kept) := Scan(edges, flags, it, news, Flag(i));
    View(edges, marked, j) + Only(i == j, Keys(kept)) == View(edges, flags, j) + Only(i == j, Keys(news))
  }

  lemma ScanAddsFound(edges: seq<QueryEdge>, flags: seq<MergedFlags>, it: nat, e: QueryEdge, rest: seq<QueryEdge>,
          i: nat, j: nat)
    requires i < 8 && j < 8 && it <= |edges| == |flags| && Found(edges, Seek(edges, it, e), e)
    requires var at := Seek(edges, it, e); ScanAdds(edges, flags[at := flags[at] | Flag(i)], at, rest, i, j)
    ensures ScanAdds(edges, flags, it, [e] + rest, i, j)
  {
    hide Flag, View, Has, Scan, Seek, Found, Keys, Only;
    var at := Seek(edges, it, e);
    ScanFirst(edges, flags, it, e, rest, Flag(i));
    FoundInside(edges, at, e);
    MarkView(edges, flags, at, i, j);
    KeysCons(e, rest);
    OnlyUnion(i == j, {e.Key()}, Keys(rest));
    UnionAssociates(View(edges, flags, j), Only(i == j, {e.Key()}), Only(i == j, Keys(rest)));
  }

  lemma ScanAddsKept(edges: seq<QueryEdge>, flags: seq<MergedFlags>, it: nat, e: QueryEdge, rest: seq<QueryEdge>,
          i: nat, j: nat)
    requires i < 8 && j < 8 && it <= |edges| == |flags| && !Found(edges, Seek(edges, it, e), e)
    requires ScanAdds(edges, flags, Seek(edges, it, e), rest, i, j)
    ensures ScanAdds(edges, flags, it, [e] + rest, i, j)
  {
    hide Flag, View, Has, Scan, Seek, Found, Keys, Only;
    var (marked, kept) := Scan(edges, flags, Seek(edges, it, e), rest, Flag(i));
    ScanFirst(edges, flags, it, e, rest, Flag(i));
    KeysCons(e, rest);
    KeysCons(e, kept);
    OnlyUnion(i == j, {e.Key()}, Keys(rest));
    OnlyUnion(i == j, {e.Key()}, Keys(kept));
    MoveUnion(View(edges, marked, j), Only(i == j, Keys(kept)), View(edges, flags, j), Only(i == j, Keys(rest)),
        Only(i == j, {e.Key()}));
  }

  /** Marking and keeping together add exactly the new edges to view `i`, whatever the order of either list. */
  lemma {:induction false} ScanView(edges: seq<QueryEdge>, flags: seq<MergedFlags>, it: nat, news: seq<QueryEdge>,
          i: nat, j: nat)
    requires i < 8 && j < 8 && it <= |edges| == |flags|
    ensures var (marked, kept) := Scan(edges, flags, it, news, Flag(i));
            View(edges, marked, j) + Only(i == j, Keys(kept)) == View(edges, flags, j) + Only(i == j, Keys(news))
    decreases |news|
  {
    hide Flag, View, Has, Scan, Seek, Found, Keys, Only;
    if news == [] {
      NothingScanned(edges, flags, it, Flag(i));
    } else {
      var at, e, rest := Seek(edges, it, news[0]), news[0], news[1..];
      assert news == [e] + rest;
      if Found(edges, at, e) {
        FoundInside(edges, at, e);
        ScanView(edges, flags[at := flags[at] | Flag(i)], at, rest, i, j);
        ScanAddsFound(edges, flags, it, e, rest, i, j);
      } else {
        ScanView(edges, flags, at, rest, i, j);
        ScanAddsKept(edges, flags, it, e, rest, i, j);
      }
    }
  }

  lemma UnionAssociates(a: set<seq<int>>, b: set<seq<int>>, c: set<seq<int>>)
    ensures (a + b) + c == a + (b + c)
  {
  }

  lemma NothingScanned(edges: seq<QueryEdge>, flags: seq<MergedFlags>, it: nat, flag: MergedFlags)
    requires it <= |edges| == |flags|
    ensures Scan(edges, flags, it, [], flag) == (flags, [])
  {
  }

  lemma OnlyUnion(yes: bool, a: set<seq<int>>, b: set<seq<int>>)
    ensures Only(yes, a + b) == Only(yes, a) + Only(yes, b)
  {
  }

  lemma MoveUnion(a: set<seq<int>>, k: set<seq<int>>, v: set<seq<int>>, r: set<seq<int>>, e: set<seq<int>>)
    requires a + k == v + r
    ensures a + (e + k) == v + (e + r)
  {
    assert a + (e + k) == (a + k) + e;
    assert v + (e + r) == (v + r) + e;
  }

  lemma KeysCons(e: QueryEdge, rest: seq<QueryEdge>)
    ensures Keys([e] + rest) == {e.Key()} + Keys(rest)
  {
    assert forall f :: f in [e] + rest <==> f == e || f in rest;
    forall f | f in rest ensures f.Key() in Keys([e] + rest) {
      assert f in [e] + rest;
    }
    assert e in [e] + rest;
  }

  lemma AppendView(edges: seq<QueryEdge>, flags: seq<MergedFlags>, kept: seq<QueryEdge>, i: nat, j: nat)
    requires i < 8 && j < 8 && |edges| == |flags|
    ensures View(edges + kept, flags + seq(|kept|, _ => Flag(i)), j) == View(edges, flags, j) + Only(i == j, Keys(kept))
  {
    var all, allFlags := edges + kept, flags + seq(|kept|, _ => Flag(i));
    FlagOperations(0, i, j);
    forall k | 0 <= k < |edges| && Has(flags[k], j) ensures edges[k].Key() in View(all, allFlags, j) {
      assert all[k] == edges[k] && allFlags[k] == flags[k];
    }
    if i == j {
      forall e | e in kept ensures e.Key() in View(all, allFlags, j) {
        var k :| 0 <= k < |kept| && kept[k] == e;
        assert all[|edges| + k] == e && allFlags[|edges| + k] == Flag(i);
      }
    }
  }

  /** Reordering edges and flags together changes no view. */
  lemma PermuteView(edges: seq<QueryEdge>, flags: seq<MergedFlags>, ordering: seq<nat>, edges': seq<QueryEdge>,
          flags': seq<MergedFlags>, j: nat)
    requires j < 8 && |edges| == |flags| == |edges'| == |flags'| == |ordering| && IsPermutation(ordering)
    requires forall k :: 0 <= k < |ordering| ==> edges'[k] == edges[ordering[k]] && flags'[k] == flags[ordering[k]]
    requires forall v: nat :: v < |ordering| ==> v in ordering
    ensures View(edges', flags', j) == View(edges, flags, j)
  {
    forall v: nat | v < |edges| && Has(flags[v], j) ensures edges[v].Key() in View(edges', flags', j) {
      assert v in ordering;
      var k :| 0 <= k < |ordering| && ordering[k] == v;
      assert Has(flags'[k], j);
    }
  }

  type Indexed = (nat, QueryEdge)

  predicate IndexedAtMost(a: Indexed, b: Indexed) {
    NotAfter(a.1, b.1)
  }

  function Indices(edges: seq<QueryEdge>): seq<Indexed> {
    seq(|edges|, k requires 0 <= k < |edges| => (k, edges[k]))
  }

  /** The order in which the edges would be sorted, as positions. */
  function Ordering(edges: seq<QueryEdge>): seq<nat> {
    var sorted := Sort(Indices(edges), IndexedAtMost);
    seq(|sorted|, k requires 0 <= k < |sorted| => sorted[k].0)
  }

  lemma {:induction false} DistinctCounts<T>(s: seq<T>)
    requires forall i, j :: 0 <= i < j < |s| ==> s[i] != s[j]
    ensures forall x :: multiset(s)[x] <= 1
  {
    if s != [] {
      DistinctCounts(s[1..]);
      assert s == [s[0]] + s[1..] && s[0] !in multiset(s[1..]);
    }
  }

  lemma CountsDistinct<T>(s: seq<T>, i: nat, j: nat)
    requires i < j < |s| && s[i] == s[j]
    ensures multiset(s)[s[i]] >= 2
  {
    assert s == s[..i] + [s[i]] + s[i + 1..j] + [s[j]] + s[j + 1..];
  }

  /** An ordering as any sort of the positions may leave it: parallel edges can stand in any order. */
  ghost predicate IsOrdering(edges: seq<QueryEdge>, ordering: seq<nat>) {
    && |ordering| == |edges| && IsPermutation(ordering)
    && (forall v: nat :: v < |edges| ==> v in ordering)
    && (forall i, j :: 0 <= i < j < |edges| ==> NotAfter(edges[ordering[i]], edges[ordering[j]]))
  }

  lemma SortedPairs(edges: seq<QueryEdge>)
    ensures var sorted := Sort(Indices(edges), IndexedAtMost);
            |sorted| == |edges| && multiset(sorted) == multiset(Indices(edges)) && SortedBy(sorted, IndexedAtMost)
  {
    SortPermutes(Indices(edges), IndexedAtMost);
    IndexedPreorder();
    SortSorts(Indices(edges), IndexedAtMost);
  }

  lemma PairAt(edges: seq<QueryEdge>, sorted: seq<Indexed>, k: nat)
    requires multiset(sorted) == multiset(Indices(edges)) && k < |sorted|
    ensures sorted[k].0 < |edges| && sorted[k].1 == edges[sorted[k].0]
  {
    assert sorted[k] in multiset(sorted) && sorted[k] in Indices(edges);
  }

  lemma PairsDiffer(edges: seq<QueryEdge>, sorted: seq<Indexed>, i: nat, j: nat)
    requires multiset(sorted) == multiset(Indices(edges)) && i < j < |sorted|
    ensures sorted[i].0 != sorted[j].0
  {
    PairAt(edges, sorted, i);
    PairAt(edges, sorted, j);
    DistinctCounts(Indices(edges));
    if sorted[i] == sorted[j] {
      CountsDistinct(sorted, i, j);
    }
  }

  lemma PairOf(edges: seq<QueryEdge>, sorted: seq<Indexed>, v: nat) returns (k: nat)
    requires multiset(sorted) == multiset(Indices(edges)) && v < |edges|
    ensures k < |sorted| && sorted[k].0 == v
  {
    assert Indices(edges)[v] in multiset(Indices(edges)) && Indices(edges)[v] in multiset(sorted);
    k :| 0 <= k < |sorted| && sorted[k] == Indices(edges)[v];
  }

  lemma OrderingIsSorting(edges: seq<QueryEdge>)
    ensures IsOrdering(edges, Ordering(edges))
  {
    hide Indices, IndexedAtMost, NotAfter, Sort;
    var sorted, ordering := Sort(Indices(edges), IndexedAtMost), Ordering(edges);
    SortedPairs(edges);
    forall k: nat | k < |sorted| ensures ordering[k] < |edges| && sorted[k].1 == edges[ordering[k]] {
      PairAt(edges, sorted, k);
    }
    forall i: nat, j: nat | i < j < |sorted|
        ensures ordering[i] != ordering[j] && NotAfter(edges[ordering[i]], edges[ordering[j]]) {
      PairsDiffer(edges, sorted, i, j);
      ComparedByEdge(sorted[i], sorted[j]);
    }
    forall v: nat | v < |edges| ensures v in ordering {
      var k := PairOf(edges, sorted, v);
      assert ordering[k] == v;
    }
  }

  lemma ComparedByEdge(a: Indexed, b: Indexed)
    ensures IndexedAtMost(a, b) <==> NotAfter(a.1, b.1)
  {
  }

  lemma IndexedPreorder()
    ensures TotalPreorder(IndexedAtMost)
  {
    forall x: Indexed, y: Indexed ensures IndexedAtMost(x, y) || IndexedAtMost(y, x) {
      LexTrichotomy(x.1.Key(), y.1.Key());
    }
    forall x: Indexed, y: Indexed, z: Indexed | IndexedAtMost(x, y) && IndexedAtMost(y, z) ensures IndexedAtMost(x, z) {
      LexTransitive(x.1.Key(), y.1.Key(), z.1.Key());
    }
  }

  ghost predicate DistinctKeys(edges: seq<QueryEdge>) {
    forall i, j :: 0 <= i < j < |edges| ==> edges[i].Key() != edges[j].Key()
  }

  lemma CompareOrder(a: QueryEdge, b: QueryEdge, c: QueryEdge)
    ensures MergeCompare(a, b) && MergeCompare(b, c) ==> MergeCompare(a, c)
    ensures MergeCompare(a, b) ==> a.Key() != b.Key() && !MergeCompare(b, a)
    ensures Mergable(a, b) <==> a.Key() == b.Key()
    ensures !MergeCompare(b, a) && !Mergable(a, b) ==> MergeCompare(a, b)
  {
    LexTrichotomy(a.Key(), b.Key());
    LexTrichotomy(b.Key(), c.Key());
    LexTransitive(a.Key(), b.Key(), c.Key());
  }

  /** The condition under which a merge stores no edge twice. For an edge that is stored already it must not be ordered
      before an earlier new edge, for the cursor would have passed it; any other edge must not be repeated. */
  ghost predicate MergesOnce(edges: seq<QueryEdge>, news: seq<QueryEdge>) {
    forall m, n :: 0 <= m < n < |news| ==> InPlace(edges, news[m], news[n])
  }

  ghost predicate InPlace(edges: seq<QueryEdge>, earlier: QueryEdge, e: QueryEdge) {
    if e.Key() in Keys(edges) then !MergeCompare(e, earlier) else earlier.Key() != e.Key()
  }

  /** None of the edges in front of a cursor has this key. */
  ghost predicate NotPassed(edges: seq<QueryEdge>, it: nat, e: QueryEdge) {
    forall k :: 0 <= k < it && k < |edges| ==> edges[k].Key() != e.Key()
  }

  /** What a scan should keep: edges that are not stored, each once. */
  ghost predicate KeptOnce(edges: seq<QueryEdge>, kept: seq<QueryEdge>) {
    DistinctKeys(kept) && forall e :: e in kept ==> e.Key() !in Keys(edges)
  }

  /** The one place of a stored key, and which cursors have passed it. */
  lemma PlaceOf(edges: seq<QueryEdge>, e: QueryEdge, it: nat) returns (p: nat)
    requires StrictlySorted(edges) && e.Key() in Keys(edges) && it <= |edges|
    ensures p < |edges| && edges[p].Key() == e.Key() && (NotPassed(edges, it, e) <==> it <= p)
  {
    hide MergeCompare;
    var f :| f in edges && f.Key() == e.Key();
    p :| 0 <= p < |edges| && edges[p] == f;
    forall k | 0 <= k < |edges| && edges[k].Key() == e.Key() ensures k == p {
      CompareOrder(edges[k], edges[p], e);
      CompareOrder(edges[p], edges[k], e);
    }
  }

  lemma SameKeyCompares(a: QueryEdge, b: QueryEdge, e: QueryEdge)
    requires a.Key() == b.Key()
    ensures MergeCompare(a, e) <==> MergeCompare(b, e)
  {
  }

  lemma Unstored(edges: seq<QueryEdge>, it: nat, e: QueryEdge)
    requires e.Key() !in Keys(edges) && it <= |edges|
    ensures NotPassed(edges, it, e)
  {
  }

  /** From `it` on, exactly the edges in front of the place that a search stops at are ordered before the edge. */
  ghost predicate Splits(edges: seq<QueryEdge>, it: nat, at: nat, e: QueryEdge) {
    it <= at <= |edges| && forall p :: it <= p < |edges| ==> (p < at <==> MergeCompare(edges[p], e))
  }

  lemma FoundSplits(edges: seq<QueryEdge>, it: nat, e: QueryEdge)
    requires StrictlySorted(edges) && it <= |edges| && Found(edges, Seek(edges, it, e), e)
    ensures var at := Seek(edges, it, e);
            at < |edges| && edges[at].Key() == e.Key() && Splits(edges, it, at, e) && NotPassed(edges, it, e)
  {
    hide MergeCompare, Mergable, Seek;
    var at := Seek(edges, it, e);
    FoundInside(edges, at, e);
    forall p | 0 <= p < |edges| ensures (p < at <==> MergeCompare(edges[p], e))
        && (p < at ==> edges[p].Key() != e.Key()) {
      ComparesSameKey(edges[at], e, edges[p]);
      CompareOrder(edges[p], edges[at], e);
      CompareOrder(edges[at], edges[p], e);
    }
  }

  lemma ComparesSameKey(a: QueryEdge, b: QueryEdge, e: QueryEdge)
    requires a.Key() == b.Key()
    ensures MergeCompare(e, a) <==> MergeCompare(e, b)
  {
  }

  /** An edge that is not found although it is stored has been passed. */
  lemma MissedIsPassed(edges: seq<QueryEdge>, it: nat, e: QueryEdge)
    requires StrictlySorted(edges) && it <= |edges| && !Found(edges, Seek(edges, it, e), e)
    ensures e.Key() in Keys(edges) <==> !NotPassed(edges, it, e)
  {
    hide MergeCompare, Mergable;
    if e.Key() in Keys(edges) {
      var p := PlaceOf(edges, e, it);
      if it <= p {
        SeekReaches(edges, it, p, e);
        MergableIsKeyEquality(e, edges[p]);
      }
    }
  }

  lemma SeekReaches(edges: seq<QueryEdge>, it: nat, p: nat, e: QueryEdge)
    requires StrictlySorted(edges) && it <= p < |edges| && edges[p].Key() == e.Key()
    ensures Seek(edges, it, e) == p
  {
    hide MergeCompare;
    var at := Advance(edges, it, e);
    SameKeyCompares(edges[p], e, edges[it]);
    ComparesSameKey(edges[p], e, edges[p]);
    CompareOrder(edges[it], edges[p], e);
    CompareOrder(edges[p], edges[p], e);
    if at < p {
      ComparesSameKey(edges[p], e, edges[at]);
    }
  }

  lemma NewSplits(edges: seq<QueryEdge>, it: nat, e: QueryEdge)
    requires StrictlySorted(edges) && it <= |edges| && e.Key() !in Keys(edges)
    ensures !Found(edges, Seek(edges, it, e), e) && Splits(edges, it, Seek(edges, it, e), e)
  {
    hide MergeCompare, Mergable;
    var at := Seek(edges, it, e);
    if Found(edges, at, e) {
      FoundInside(edges, at, e);
    }
    forall p | at <= p < |edges| ensures !MergeCompare(edges[p], e) {
      CompareOrder(edges[at], edges[p], e);
      CompareOrder(e, edges[at], e);
    }
  }

  /** For one later edge: not passed and in place behind `e`, or not passed by the cursor that stands where `e`
      belongs. */
  lemma PassedLater(edges: seq<QueryEdge>, it: nat, at: nat, e: QueryEdge, x: QueryEdge)
    requires StrictlySorted(edges) && Splits(edges, it, at, e)
    ensures x.Key() in Keys(edges) ==> (NotPassed(edges, it, x) && InPlace(edges, e, x) <==> NotPassed(edges, at, x))
    ensures x.Key() !in Keys(edges) ==> NotPassed(edges, it, x) && NotPassed(edges, at, x)
  {
    hide MergeCompare, NotPassed, StrictlySorted;
    if x.Key() in Keys(edges) {
      var p := PlaceOf(edges, x, it);
      var q := PlaceOf(edges, x, at);
      SamePlace(edges, p, q);
      SameKeyCompares(x, edges[p], e);
    } else {
      Unstored(edges, it, x);
      Unstored(edges, at, x);
    }
  }

  lemma SamePlace(edges: seq<QueryEdge>, p: nat, q: nat)
    requires StrictlySorted(edges) && p < |edges| && q < |edges| && edges[p].Key() == edges[q].Key()
    ensures p == q
  {
    hide MergeCompare;
    CompareOrder(edges[p], edges[q], edges[p]);
    CompareOrder(edges[q], edges[p], edges[q]);
  }

  /** The condition for a cursor anywhere: no new edge has been passed, and each is in place behind the earlier ones. */
  ghost predicate ScansOnce(edges: seq<QueryEdge>, it: nat, news: seq<QueryEdge>) {
    (forall x :: x in news ==> NotPassed(edges, it, x)) && MergesOnce(edges, news)
  }

  lemma MergesOnceCons(edges: seq<QueryEdge>, e: QueryEdge, rest: seq<QueryEdge>)
    ensures MergesOnce(edges, [e] + rest) <==> MergesOnce(edges, rest) && forall x :: x in rest ==> InPlace(edges, e, x)
  {
    hide InPlace;
    var news := [e] + rest;
    if MergesOnce(edges, news) {
      forall x | x in rest ensures InPlace(edges, e, x) {
        var k :| 0 <= k < |rest| && rest[k] == x;
        assert InPlace(edges, news[0], news[k + 1]);
      }
      forall m, n | 0 <= m < n < |rest| ensures InPlace(edges, rest[m], rest[n]) {
        assert InPlace(edges, news[m + 1], news[n + 1]);
      }
    }
  }

  lemma ScansOnceCons(edges: seq<QueryEdge>, it: nat, e: QueryEdge, rest: seq<QueryEdge>)
    ensures ScansOnce(edges, it, [e] + rest)
            <==> NotPassed(edges, it, e) && MergesOnce(edges, rest)
                 && forall x :: x in rest ==> NotPassed(edges, it, x) && InPlace(edges, e, x)
  {
    hide InPlace, NotPassed, MergesOnce;
    MergesOnceCons(edges, e, rest);
    assert forall x :: x in [e] + rest <==> x == e || x in rest;
  }

  /** An edge that marks a stored one leaves the condition to the rest, from the new place of the cursor. */
  lemma OnceBehindFound(edges: seq<QueryEdge>, it: nat, at: nat, e: QueryEdge, rest: seq<QueryEdge>)
    requires StrictlySorted(edges) && Splits(edges, it, at, e) && NotPassed(edges, it, e) && e.Key() in Keys(edges)
    ensures ScansOnce(edges, it, [e] + rest) <==> ScansOnce(edges, at, rest)
  {
    hide NotPassed, MergesOnce, StrictlySorted, Splits, Keys;
    ScansOnceCons(edges, it, e, rest);
    forall x | x in rest ensures NotPassed(edges, it, x) && InPlace(edges, e, x) <==> NotPassed(edges, at, x) {
      PassedLater(edges, it, at, e, x);
    }
  }

  /** An edge that is not stored must, besides, not come again. */
  lemma OnceBehindNew(edges: seq<QueryEdge>, it: nat, at: nat, e: QueryEdge, rest: seq<QueryEdge>)
    requires StrictlySorted(edges) && Splits(edges, it, at, e) && e.Key() !in Keys(edges) && it <= |edges|
    ensures ScansOnce(edges, it, [e] + rest)
            <==> ScansOnce(edges, at, rest) && forall x :: x in rest && x.Key() !in Keys(edges) ==> x.Key() != e.Key()
  {
    hide NotPassed, MergesOnce, StrictlySorted, Splits, Keys, MergeCompare;
    ScansOnceCons(edges, it, e, rest);
    Unstored(edges, it, e);
    forall x | x in rest
      ensures NotPassed(edges, it, x) && InPlace(edges, e, x)
              <==> NotPassed(edges, at, x) && (x.Key() !in Keys(edges) ==> x.Key() != e.Key())
    {
      PassedLater(edges, it, at, e, x);
    }
  }

  lemma {:induction false} UnstoredIsKept(edges: seq<QueryEdge>, flags: seq<MergedFlags>, it: nat, news: seq<QueryEdge>,
          flag: MergedFlags)
    requires it <= |edges| == |flags|
    ensures forall x :: x in news && x.Key() !in Keys(edges) ==> x in Scan(edges, flags, it, news, flag).1
    decreases |news|
  {
    hide Seek, Found, Scan;
    if news != [] {
      var at, e, rest := Seek(edges, it, news[0]), news[0], news[1..];
      assert news == [e] + rest;
      ScanFirst(edges, flags, it, e, rest, flag);
      if Found(edges, at, e) {
        FoundInside(edges, at, e);
        UnstoredIsKept(edges, flags[at := flags[at] | flag], at, rest, flag);
      } else {
        UnstoredIsKept(edges, flags, at, rest, flag);
      }
    }
  }

  lemma KeptOnceCons(edges: seq<QueryEdge>, e: QueryEdge, kept: seq<QueryEdge>)
    ensures KeptOnce(edges, [e] + kept)
            <==> e.Key() !in Keys(edges) && KeptOnce(edges, kept) && forall x :: x in kept ==> x.Key() != e.Key()
  {
    var all := [e] + kept;
    assert forall x :: x in all <==> x == e || x in kept;
    if DistinctKeys(all) {
      forall x | x in kept ensures x.Key() != e.Key() {
        var k :| 0 <= k < |kept| && kept[k] == x;
        assert all[k + 1] == x && all[0] == e;
      }
      forall i, j | 0 <= i < j < |kept| ensures kept[i].Key() != kept[j].Key() {
        assert all[i + 1] == kept[i] && all[j + 1] == kept[j];
      }
    }
  }

  /** Over strictly sorted edges the one-cursor scan keeps each edge once, and none that is stored, exactly under the
      condition, wherever the cursor starts. */
  lemma {:induction false} ScanKeepsOnce(edges: seq<QueryEdge>, flags: seq<MergedFlags>, it: nat, news: seq<QueryEdge>,
          flag: MergedFlags)
    requires it <= |edges| == |flags| && StrictlySorted(edges)
    ensures KeptOnce(edges, Scan(edges, flags, it, news, flag).1) <==> ScansOnce(edges, it, news)
    decreases |news|
  {
    hide Seek, Found, Scan, StrictlySorted, KeptOnce, ScansOnce, Splits, NotPassed, Keys, MergeCompare;
    if news == [] {
      NothingScanned(edges, flags, it, flag);
      NothingTwice(edges, it);
    } else {
      var at, e, rest := Seek(edges, it, news[0]), news[0], news[1..];
      assert news == [e] + rest;
      ScanFirst(edges, flags, it, e, rest, flag);
      if Found(edges, at, e) {
        FoundSplits(edges, it, e);
        StoredKey(edges, at, e);
        OnceBehindFound(edges, it, at, e, rest);
        ScanKeepsOnce(edges, flags[at := flags[at] | flag], at, rest, flag);
      } else {
        var kept := Scan(edges, flags, at, rest, flag).1;
        MissedIsPassed(edges, it, e);
        KeptOnceCons(edges, e, kept);
        if e.Key() in Keys(edges) {
          ScansOnceCons(edges, it, e, rest);
        } else {
          NewSplits(edges, it, e);
          OnceBehindNew(edges, it, at, e, rest);
          ScanKeepsOnce(edges, flags, at, rest, flag);
          UnstoredIsKept(edges, flags, at, rest, flag);
          KeptFromNews(edges, flags, at, rest, flag);
        }
      }
    }
  }

  lemma StoredKey(edges: seq<QueryEdge>, at: nat, e: QueryEdge)
    requires at < |edges| && edges[at].Key() == e.Key()
    ensures e.Key() in Keys(edges)
  {
  }

  lemma NothingTwice(edges: seq<QueryEdge>, it: nat)
    ensures KeptOnce(edges, []) && ScansOnce(edges, it, [])
  {
  }

  lemma StrictIsDistinct(edges: seq<QueryEdge>)
    ensures StrictlySorted(edges) <==> Sorted(edges) && DistinctKeys(edges)
  {
    forall i, j | 0 <= i < j < |edges|
      ensures MergeCompare(edges[i], edges[j]) <==> NotAfter(edges[i], edges[j]) && edges[i].Key() != edges[j].Key()
    {
      LexTrichotomy(edges[i].Key(), edges[j].Key());
    }
  }

  lemma ScanNext(edges: seq<QueryEdge>, flags: seq<MergedFlags>, it: nat, news: seq<QueryEdge>, n: nat,
          flag: MergedFlags)
    requires it <= |edges| == |flags| && n < |news|
    ensures var at := Seek(edges, it, news[n]);
            var found := at != |edges| && Mergable(news[n], edges[at]);
            var rest := Scan(edges, if found then flags[at := flags[at] | flag] else flags, at, news[n + 1..], flag);
            && Scan(edges, flags, it, news[n..], flag).0 == rest.0
            && Scan(edges, flags, it, news[n..], flag).1 == (if found then [] else [news[n]]) + rest.1
  {
    assert news[n..][0] == news[n] && news[n..][1..] == news[n + 1..];
  }

  /** The result of a scan of which the edges in `kept` have been decided. */
  function Resumed(edges: seq<QueryEdge>, flags: seq<MergedFlags>, it: nat, news: seq<QueryEdge>, flag: MergedFlags,
          kept: seq<QueryEdge>)
    : (r: (seq<MergedFlags>, seq<QueryEdge>))
    requires it <= |edges| == |flags|
  {
    var rest := Scan(edges, flags, it, news, flag);
    (rest.0, kept + rest.1)
  }

  lemma ResumedStart(edges: seq<QueryEdge>, flags: seq<MergedFlags>, news: seq<QueryEdge>, flag: MergedFlags)
    requires |edges| == |flags|
    ensures Resumed(edges, flags, 0, news, flag, []) == Scan(edges, flags, 0, news, flag)
  {
    hide Scan;
    assert [] + Scan(edges, flags, 0, news, flag).1 == Scan(edges, flags, 0, news, flag).1;
  }

  lemma ResumedStop(edges: seq<QueryEdge>, flags: seq<MergedFlags>, it: nat, flag: MergedFlags, kept: seq<QueryEdge>)
    requires it <= |edges| == |flags|
    ensures Resumed(edges, flags, it, [], flag, kept) == (flags, kept)
  {
    assert kept + [] == kept;
  }

  lemma ResumedNext(edges: seq<QueryEdge>, flags: seq<MergedFlags>, it: nat, news: seq<QueryEdge>, n: nat,
          flag: MergedFlags, kept: seq<QueryEdge>)
    requires it <= |edges| == |flags| && n < |news|
    ensures var at := Seek(edges, it, news[n]);
            var found := at != |edges| && Mergable(news[n], edges[at]);
            Resumed(edges, flags, it, news[n..], flag, kept)
            == Resumed(edges, if found then flags[at := flags[at] | flag] else flags, at, news[n + 1..], flag,
                       if found then kept else kept + [news[n]])
  {
    hide Scan, Seek, Mergable;
    ScanNext(edges, flags, it, news, n, flag);
    var at := Seek(edges, it, news[n]);
    var found := at != |edges| && Mergable(news[n], edges[at]);
    var rest := Scan(edges, if found then flags[at := flags[at] | flag] else flags, at, news[n + 1..], flag).1;
    assert kept + ([] + rest) == kept + rest && kept + ([news[n]] + rest) == (kept + [news[n]]) + rest;
  }

  /** Move the cursor to the first old edge that is equal to or greater than the new edge, unless it is already past
      it. */
  method MoveCursor(edges: seq<QueryEdge>, it: nat, edge: QueryEdge) returns (at: nat)
    requires it <= |edges|
    ensures at == Seek(edges, it, edge)
  {
    hide MergeCompare;
    at := it;
    if at != |edges| && !MergeCompare(edge, edges[at]) {
      while at < |edges| && MergeCompare(edges[at], edge)
        invariant it <= at <= |edges| && Advance(edges, at, edge) == Advance(edges, it, edge)
      {
        at := at + 1;
      }
    }
  }

  ghost predicate FilteredUpTo(filter: seq<bool>, edges: seq<QueryEdge>, i: nat, n: nat, was: seq<MergedFlags>,
          now: seq<MergedFlags>)
    requires i < 8 && forall e :: e in edges ==> e.source < |filter| && e.target < |filter|
  {
    && |was| == |now| == |edges|
    && (forall m :: 0 <= m < |edges| && m < n
                    ==> edges[m] in edges && FilteredFlags(filter, edges[m], i, was[m], now[m]))
    && (forall m :: 0 <= m < |edges| && n <= m ==> now[m] == was[m])
  }

  /** The keys of the edges whose two ends a filter allows. */
  ghost function AllowedKeys(edges: seq<QueryEdge>, filter: seq<bool>): set<seq<int>>
    requires forall e :: e in edges ==> e.source < |filter| && e.target < |filter|
  {
    set e | e in edges && filter[e.source] && filter[e.target] :: e.Key()
  }

  function Switched(flags: MergedFlags, flag: MergedFlags, on: bool): MergedFlags {
    if on then flags | flag else flags & !flag
  }

  lemma FilterStart(filter: seq<bool>, edges: seq<QueryEdge>, i: nat, flags: seq<MergedFlags>)
    requires i < 8 && forall e :: e in edges ==> e.source < |filter| && e.target < |filter|
    requires |flags| == |edges|
    ensures FilteredUpTo(filter, edges, i, 0, flags, flags)
  {
  }

  lemma FilterNext(filter: seq<bool>, edges: seq<QueryEdge>, i: nat, k: nat, was: seq<MergedFlags>,
          now: seq<MergedFlags>)
    requires i < 8 && forall e :: e in edges ==> e.source < |filter| && e.target < |filter|
    requires k < |edges| && FilteredUpTo(filter, edges, i, k, was, now)
    ensures |now| == |edges| && edges[k] in edges
    ensures FilteredUpTo(filter, edges, i, k + 1, was,
              now[k := Switched(now[k], Flag(i), filter[edges[k].source] && filter[edges[k].target])])
  {
    assert edges[k] in edges;
    hide FilteredFlags, Flag;
    FilterFlags(filter, edges[k], i, now[k]);
  }

  ghost predicate FilteredFlags(filter: seq<bool>, e: QueryEdge, i: nat, was: MergedFlags, now: MergedFlags)
    requires i < 8 && e.source < |filter| && e.target < |filter|
  {
    forall j: nat :: j < 8 ==> (Has(now, j) <==> if i == j then filter[e.source] && filter[e.target] else Has(was, j))
  }

  lemma FilterFlags(filter: seq<bool>, e: QueryEdge, i: nat, was: MergedFlags)
    requires i < 8 && e.source < |filter| && e.target < |filter|
    ensures FilteredFlags(filter, e, i, was, if filter[e.source] && filter[e.target] then was | Flag(i)
            else was & !Flag(i))
  {
    forall j: nat | j < 8
      ensures Has(was | Flag(i), j) <==> i == j || Has(was, j)
      ensures Has(was & !Flag(i), j) <==> i != j && Has(was, j)
    {
      FlagOperations(was, i, j);
    }
  }

  lemma FilteredView(filter: seq<bool>, edges: seq<QueryEdge>, i: nat, was: seq<MergedFlags>, now: seq<MergedFlags>)
    requires i < 8 && forall e :: e in edges ==> e.source < |filter| && e.target < |filter|
    requires FilteredUpTo(filter, edges, i, |edges|, was, now)
    ensures View(edges, now, i) == AllowedKeys(edges, filter)
    ensures forall j: nat :: j < 8 && j != i ==> View(edges, now, j) == View(edges, was, j)
  {
    forall e | e in edges && filter[e.source] && filter[e.target] ensures e.Key() in View(edges, now, i) {
      var m :| 0 <= m < |edges| && edges[m] == e;
      assert FilteredFlags(filter, edges[m], i, was[m], now[m]);
    }
    forall j: nat | j < 8 && j != i ensures View(edges, now, j) == View(edges, was, j) {
      assert forall m :: 0 <= m < |edges| ==> (Has(now[m], j) <==> Has(was[m], j));
    }
  }

  lemma InversePermutation(ordering: seq<nat>, permutation: seq<nat>)
    requires IsPermutation(ordering) && |permutation| == |ordering|
    requires forall v: nat :: v < |ordering| ==> v in ordering
    requires forall i :: 0 <= i < |ordering| ==> permutation[ordering[i]] == i
    ensures IsPermutation(permutation)
  {
    forall v: nat | v < |permutation| ensures permutation[v] < |permutation| && ordering[permutation[v]] == v {
      assert v in ordering;
      var k :| 0 <= k < |ordering| && ordering[k] == v;
    }
  }

  ghost predicate Reordered<T>(ordering: seq<nat>, was: seq<T>, now: seq<T>)
    requires IsPermutation(ordering)
  {
    |was| == |now| == |ordering| && forall k :: 0 <= k < |ordering| ==> now[k] == was[ordering[k]]
  }

  /** The parallel sort of the positions; nothing but its contract is used. */
  method SortPositions(edges: seq<QueryEdge>) returns (ordering: seq<nat>)
    ensures IsOrdering(edges, ordering)
  {
    ordering := Ordering(edges);
    OrderingIsSorting(edges);
  }

  /** Move element ordering[k] to position k by way of the inverse permutation, in place. */
  method Reorder<T>(s: seq<T>, ordering: seq<nat>, permutation: seq<nat>) returns (r: seq<T>)
    requires IsPermutation(ordering) && IsPermutation(permutation) && |s| == |ordering| == |permutation|
    requires forall i :: 0 <= i < |ordering| ==> permutation[ordering[i]] == i
    ensures Reordered(ordering, s, r)
  {
    var a := new T[|s|](k requires 0 <= k < |s| => s[k]);
    InplacePermutation(a, permutation);
    r := a[..];
    forall k | 0 <= k < |ordering| ensures r[k] == s[ordering[k]] {
      assert permutation[ordering[k]] == k;
    }
  }

  /** Everything that a merge promises about the views of the combined vectors, in whatever order the sort leaves
      them. */
  lemma MergedViews(edges: seq<QueryEdge>, flags: seq<MergedFlags>, news: seq<QueryEdge>, i: nat, j: nat,
                    ordering: seq<nat>, edges': seq<QueryEdge>, flags': seq<MergedFlags>)
    requires i < 8 && j < 8 && |edges| == |flags|
    requires var (marked, kept) := Scan(edges, flags, 0, news, Flag(i));
             && IsOrdering(edges + kept, ordering) && Reordered(ordering, edges + kept, edges')
             && Reordered(ordering, marked + seq(|kept|, _ => Flag(i)), flags')
    ensures |edges'| == |flags'|
    ensures View(edges', flags', j) == View(edges, flags, j) + Only(i == j, Keys(news))
  {
    hide View, Keys, NotAfter;
    var (marked, kept) := Scan(edges, flags, 0, news, Flag(i));
    var all, allFlags := edges + kept, marked + seq(|kept|, _ => Flag(i));
    ScanView(edges, flags, 0, news, i, j);
    AppendView(edges, marked, kept, i, j);
    PermuteView(all, allFlags, ordering, edges', flags', j);
  }

  /** Reordering keeps the members, and keeps them apart if they were. */
  lemma ReorderedMembers(all: seq<QueryEdge>, ordering: seq<nat>, edges': seq<QueryEdge>)
    requires IsOrdering(all, ordering) && Reordered(ordering, all, edges')
    ensures |edges'| == |all| && (forall e :: e in edges' <==> e in all)
            && (DistinctKeys(edges') <==> DistinctKeys(all)) && Sorted(edges')
  {
    hide NotAfter;
    forall e | e in all ensures e in edges' {
      var v: nat :| v < |all| && all[v] == e;
      assert v in ordering;
      var k :| 0 <= k < |all| && ordering[k] == v;
      assert edges'[k] == e;
    }
    forall e | e in edges' ensures e in all {
      var k :| 0 <= k < |edges'| && edges'[k] == e;
    }
    if DistinctKeys(all) {
      forall i, j | 0 <= i < j < |edges'| ensures edges'[i].Key() != edges'[j].Key() {
        var (p, q) := (ordering[i], ordering[j]);
        assert p != q && (p < q || q < p);
      }
    }
    if DistinctKeys(edges') {
      forall p: nat, q: nat | p < q < |all| ensures all[p].Key() != all[q].Key() {
        assert p in ordering && q in ordering;
        var i, j :| 0 <= i < |all| && ordering[i] == p && 0 <= j < |all| && ordering[j] == q;
        assert i != j && (i < j || j < i);
      }
    }
  }

  lemma KeysUnion(a: seq<QueryEdge>, b: seq<QueryEdge>)
    ensures Keys(a + b) == Keys(a) + Keys(b)
  {
    assert forall e :: e in a + b <==> e in a || e in b;
  }

  lemma DistinctAppend(edges: seq<QueryEdge>, kept: seq<QueryEdge>)
    ensures DistinctKeys(edges + kept) <==> DistinctKeys(edges) && KeptOnce(edges, kept)
  {
    var all := edges + kept;
    assert forall i :: 0 <= i < |edges| ==> all[i] == edges[i];
    assert forall i :: 0 <= i < |kept| ==> all[|edges| + i] == kept[i];
    if DistinctKeys(all) {
      forall e | e in kept ensures e.Key() !in Keys(edges) {
        var j :| 0 <= j < |kept| && kept[j] == e;
        assert forall i :: 0 <= i < |edges| ==> all[i].Key() != all[|edges| + j].Key();
      }
      forall i, j | 0 <= i < j < |kept| ensures kept[i].Key() != kept[j].Key() {
        assert all[|edges| + i].Key() != all[|edges| + j].Key();
      }
    }
    if DistinctKeys(edges) && KeptOnce(edges, kept) {
      forall i, j | 0 <= i < j < |all| ensures all[i].Key() != all[j].Key() {
        if i < |edges| <= j {
          assert edges[i] in edges && kept[j - |edges|] in kept;
        }
      }
    }
  }

  /** Nothing is found among edges of other keys, in whatever order these stand. */
  lemma {:induction false} ScanDisjoint(edges: seq<QueryEdge>, flags: seq<MergedFlags>, it: nat, news: seq<QueryEdge>,
          flag: MergedFlags)
    requires it <= |edges| == |flags| && forall x :: x in news ==> x.Key() !in Keys(edges)
    ensures Scan(edges, flags, it, news, flag).1 == news
    decreases |news|
  {
    hide Seek, Found, Scan, Keys;
    if news == [] {
      NothingScanned(edges, flags, it, flag);
    } else {
      var at, e, rest := Seek(edges, it, news[0]), news[0], news[1..];
      assert news == [e] + rest;
      ScanFirst(edges, flags, it, e, rest, flag);
      if Found(edges, at, e) {
        FoundInside(edges, at, e);
        StoredKey(edges, at, e);
      }
      ScanDisjoint(edges, flags, at, rest, flag);
    }
  }

  lemma DisjointOnce(edges: seq<QueryEdge>, news: seq<QueryEdge>)
    requires forall x :: x in news ==> x.Key() !in Keys(edges)
    ensures MergesOnce(edges, news) <==> KeptOnce(edges, news)
  {
    hide MergeCompare, Keys;
  }

  lemma StrictMergesOnce(edges: seq<QueryEdge>, news: seq<QueryEdge>)
    requires StrictlySorted(news)
    ensures MergesOnce(edges, news)
  {
    hide MergeCompare, Keys;
    forall m, n | 0 <= m < n < |news| ensures InPlace(edges, news[m], news[n]) {
      CompareOrder(news[m], news[n], news[m]);
      CompareOrder(news[m], news[m], news[n]);
    }
  }

  lemma NothingPassed(edges: seq<QueryEdge>, news: seq<QueryEdge>)
    ensures ScansOnce(edges, 0, news) <==> MergesOnce(edges, news)
  {
    hide MergesOnce;
  }

  /** When the stored edges are sorted, or share no key with the new ones, a merge stores each edge once exactly under
      the condition. */
  lemma ScanOnce(edges: seq<QueryEdge>, flags: seq<MergedFlags>, news: seq<QueryEdge>, flag: MergedFlags)
    requires |edges| == |flags| && (Sorted(edges) || forall x :: x in news ==> x.Key() !in Keys(edges))
    ensures DistinctKeys(edges + Scan(edges, flags, 0, news, flag).1)
            <==> DistinctKeys(edges) && MergesOnce(edges, news)
  {
    hide Scan, Keys, DistinctKeys, KeptOnce, MergesOnce, ScansOnce, Sorted, StrictlySorted;
    DistinctAppend(edges, Scan(edges, flags, 0, news, flag).1);
    if DistinctKeys(edges) {
      if Sorted(edges) {
        StrictIsDistinct(edges);
        ScanKeepsOnce(edges, flags, 0, news, flag);
        NothingPassed(edges, news);
      } else {
        ScanDisjoint(edges, flags, 0, news, flag);
        DisjointOnce(edges, news);
      }
    }
  }

  lemma {:induction false} ScanKeys(edges: seq<QueryEdge>, flags: seq<MergedFlags>, news: seq<QueryEdge>,
          flag: MergedFlags)
    requires |edges| == |flags|
    ensures Keys(edges + Scan(edges, flags, 0, news, flag).1) == Keys(edges) + Keys(news)
  {
    hide Scan;
    var kept := Scan(edges, flags, 0, news, flag).1;
    KeysUnion(edges, kept);
    KeptFromNews(edges, flags, 0, news, flag);
    UnstoredIsKept(edges, flags, 0, news, flag);
  }

  /** Order, members and multiplicity of the combined list. */
  lemma MergedOrder(edges: seq<QueryEdge>, flags: seq<MergedFlags>, news: seq<QueryEdge>, flag: MergedFlags,
          ordering: seq<nat>, edges': seq<QueryEdge>)
    requires |edges| == |flags|
    requires var all := edges + Scan(edges, flags, 0, news, flag).1;
             IsOrdering(all, ordering) && Reordered(ordering, all, edges')
    ensures Sorted(edges') && Keys(edges') == Keys(edges) + Keys(news)
    ensures StrictlySorted(edges') <==> DistinctKeys(edges')
    ensures Sorted(edges) || Keys(edges) !! Keys(news)
            ==> (DistinctKeys(edges') <==> DistinctKeys(edges) && MergesOnce(edges, news))
    ensures StrictlySorted(edges) && StrictlySorted(news) ==> StrictlySorted(edges')
  {
    hide Scan, Sorted, StrictlySorted, DistinctKeys, MergesOnce, IsOrdering, Reordered;
    var all := edges + Scan(edges, flags, 0, news, flag).1;
    ReorderedMembers(all, ordering, edges');
    ScanKeys(edges, flags, news, flag);
    StrictIsDistinct(edges');
    StrictIsDistinct(edges);
    if Keys(edges) !! Keys(news) {
      KeysApart(edges, news);
    }
    if Sorted(edges) || Keys(edges) !! Keys(news) {
      ScanOnce(edges, flags, news, flag);
    }
    if StrictlySorted(news) {
      StrictMergesOnce(edges, news);
    }
  }

  lemma KeysApart(edges: seq<QueryEdge>, news: seq<QueryEdge>)
    requires Keys(edges) !! Keys(news)
    ensures forall x :: x in news ==> x.Key() !in Keys(edges)
  {
  }

  class ContractedEdgeContainer {
    var index: nat
    var flags: seq<MergedFlags>
    var edges: seq<QueryEdge>

    ghost predicate Valid()
      reads this
    {
      |flags| == |edges| && index <= 8
    }

    constructor ()
      ensures Valid() && index == 0 && edges == []
    {
      index, flags, edges := 0, [], [];
    }

    ghost function ViewOf(i: nat): set<seq<int>>
      requires i < 8 && Valid()
      reads this
    {
      View(edges, flags, i)
    }

    method Insert(newEdges: seq<QueryEdge>)
      requires Valid() && edges == [] && flags == []
      modifies this
      ensures Valid() && edges == newEdges && index == old(index)
      ensures forall i: nat :: i < 8 ==> ViewOf(i) == Keys(newEdges)
    {
      edges := newEdges;
      flags := seq(|edges|, _ => ALL_FLAGS);
      forall i: nat | i < 8 ensures View(edges, flags, i) == Keys(edges) {
        FlagOperations(0, i, i);
        forall e | e in edges ensures e.Key() in View(edges, flags, i) {
          var k :| 0 <= k < |edges| && edges[k] == e;
          assert Has(flags[k], i);
        }
      }
    }

    /** Restrict view `index` to the edges whose two ends are allowed. */
    method Filter(filter: seq<bool>, index: nat)
      requires Valid() && index < 8
      requires forall e :: e in edges ==> e.source < |filter| && e.target < |filter|
      modifies this`flags
      ensures Valid()
      ensures ViewOf(index) == AllowedKeys(edges, filter)
      ensures forall j: nat :: j < 8 && j != index ==> ViewOf(j) == old(ViewOf(j))
    {
      hide Flag, FilteredUpTo, View, AllowedKeys, Switched;
      var flag := Flag(index);
      FilterStart(filter, edges, index, flags);
      for k := 0 to |edges|
        invariant |flags| == |edges| && FilteredUpTo(filter, edges, index, k, old(flags), flags)
      {
        FilterNext(filter, edges, index, k, old(flags), flags);
        var allowed := filter[edges[k].source] && filter[edges[k].target];
        flags := flags[k := Switched(flags[k], flag, allowed)];
      }
      FilteredView(filter, edges, index, old(flags), flags);
    }

    method Merge(newEdges: seq<QueryEdge>)
      requires Valid() && index < 8
      modifies this
      ensures Valid() && index == old(index) + 1
      ensures ViewOf(old(index)) == old(ViewOf(index)) + Keys(newEdges)
      ensures forall j: nat :: j < 8 && j != old(index) ==> ViewOf(j) == old(ViewOf(j))
      ensures Sorted(edges) && InFieldOrder(edges) && Keys(edges) == Keys(old(edges)) + Keys(newEdges)
      ensures old(Sorted(edges)) || Keys(old(edges)) !! Keys(newEdges)
              ==> (DistinctKeys(edges) <==> DistinctKeys(old(edges)) && MergesOnce(old(edges), newEdges))
      ensures old(StrictlySorted(edges)) && StrictlySorted(newEdges) ==> StrictlySorted(edges)
      ensures var kept := Scan(old(edges), old(flags), 0, newEdges, Flag(old(index))).1;
              |edges| == |old(edges)| + |kept| && forall e :: e in edges <==> e in old(edges) || e in kept
      ensures forall e :: e in old(edges) ==> e in edges
      ensures forall e :: e in edges ==> e in old(edges) || e in newEdges
    {
      ghost var edges0, flags0, i := edges, flags, index;
      hide Flag, View, Has, Ordering, Keys, Sorted, StrictlySorted, DistinctKeys, MergesOnce, IsOrdering, Reordered,
           Scan, InFieldOrder;
      var flag := Flag(index);
      index := index + 1;
      var kept := MarkKnown(newEdges, flag);
      edges := edges + kept;
      flags := flags + seq(|kept|, _ => flag);
      ghost var all := edges;
      ghost var sorting := SortTogether();
      ReorderedMembers(all, sorting, edges);
      forall j: nat | j < 8 ensures View(edges, flags, j) == View(edges0, flags0, j) + Only(i == j, Keys(newEdges)) {
        MergedViews(edges0, flags0, newEdges, i, j, sorting, edges, flags);
      }
      MergedOrder(edges0, flags0, newEdges, flag, sorting, edges);
      KeptFromNews(edges0, flags0, 0, newEdges, flag);
      SortedIsFieldOrder(edges);
    }

    /** The pass over the new edges with one cursor into the old ones; matched edges are removed from the new list. */
    method MarkKnown(newEdges: seq<QueryEdge>, flag: MergedFlags) returns (kept: seq<QueryEdge>)
      requires Valid()
      modifies this`flags
      ensures Valid() && flags == Scan(edges, old(flags), 0, newEdges, flag).0
      ensures kept == Scan(edges, old(flags), 0, newEdges, flag).1
    {
      hide MergeCompare, Mergable, Flag, Scan, Seek, Resumed;
      var it: nat, n: nat := 0, 0;
      kept := [];
      assert newEdges[0..] == newEdges;
      ResumedStart(edges, flags, newEdges, flag);
      while n < |newEdges|
        invariant n <= |newEdges| && it <= |edges| == |flags|
        invariant Resumed(edges, flags, it, newEdges[n..], flag, kept) == Scan(edges, old(flags), 0, newEdges, flag)
      {
        ResumedNext(edges, flags, it, newEdges, n, flag, kept);
        var edge := newEdges[n];
        n := n + 1;
        it := MoveCursor(edges, it, edge);
        if it != |edges| && Mergable(edge, edges[it]) {
          flags := flags[it := flags[it] | flag];
        } else {
          kept := kept + [edge];
        }
      }
      assert newEdges[n..] == [];
      ResumedStop(edges, flags, it, flag, kept);
    }

    /** Sort the edges by `mergeCompare`, parallel ones in any order, and carry the flags along. */
    method SortTogether() returns (ghost sorting: seq<nat>)
      requires Valid()
      modifies this`edges, this`flags
      ensures Valid() && IsOrdering(old(edges), sorting)
      ensures Reordered(sorting, old(edges), edges) && Reordered(sorting, old(flags), flags)
    {
      hide Ordering, IsPermutation, NotAfter;
      var ordering := SortPositions(edges);
      sorting := ordering;
      var permutation := OrderingToPermutation(ordering);
      InversePermutation(ordering, permutation);
      edges := Reorder(edges, ordering, permutation);
      flags := Reorder(flags, ordering, permutation);
    }

    method MakeEdgeFilters() returns (filters: seq<seq<bool>>)
      requires Valid()
      ensures |filters| == index
      ensures forall i: nat :: i < index ==>
                |filters[i]| == |edges| && forall k :: 0 <= k < |edges| ==> filters[i][k] == Has(flags[k], i)
    {
      filters := [];
      while |filters| < index
        invariant |filters| <= index <= 8
        invariant forall i: nat :: i < |filters| ==>
          |filters[i]| == |edges| && forall k :: 0 <= k < |edges| ==> filters[i][k] == Has(flags[k], i)
      {
        var row: seq<bool> := [];
        while |row| < |flags|
          invariant |row| <= |flags| && forall k :: 0 <= k < |row| ==> row[k] == Has(flags[k], |filters|)
        {
          row := row + [Has(flags[|row|], |filters|)];
        }
        filters := filters + [row];
      }
    }
  }
}
