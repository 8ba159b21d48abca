/** The engine sorts with the parallel sort of its task library, which may leave elements that compare equal in any
    order. `IsSorting` is all that is known of its result. */
module Sorting {

  ghost predicate TotalPreorder<T(!new)>(atMost: (T, T) -> bool) {
    && (forall x, y :: atMost(x, y) || atMost(y, x))
    && (forall x, y, z :: atMost(x, y) && atMost(y, z) ==> atMost(x, z))
  }

  ghost predicate SortedBy<T>(s: seq<T>, atMost: (T, T) -> bool) {
    forall i, j :: 0 <= i < j < |s| ==> atMost(s[i], s[j])
  }

  ghost predicate IsSorting<T>(s: seq<T>, sorted: seq<T>, atMost: (T, T) -> bool) {
    multiset(sorted) == multiset(s) && SortedBy(sorted, atMost)
  }

  function Insert<T>(x: T, s: seq<T>, atMost: (T, T) -> bool): seq<T> {
    if s == [] || atMost(x, s[0]) then [x] + s else [s[0]] + Insert(x, s[1..], atMost)
  }

  function Sort<T>(s: seq<T>, atMost: (T, T) -> bool): seq<T> {
    if s == [] then [] else Insert(s[0], Sort(s[1..], atMost), atMost)
  }

  lemma {:induction false} InsertKeeps<T>(x: T, s: seq<T>, atMost: (T, T) -> bool)
    ensures multiset(Insert(x, s, atMost)) == multiset(s) + multiset{x}
  {
    if s != [] && !atMost(x, s[0]) {
      assert s == [s[0]] + s[1..];
      InsertKeeps(x, s[1..], atMost);
    }
  }

  lemma {:induction false} SortPermutes<T>(s: seq<T>, atMost: (T, T) -> bool)
    ensures multiset(Sort(s, atMost)) == multiset(s) && |Sort(s, atMost)| == |s|
  {
    if s != [] {
      assert s == [s[0]] + s[1..];
      SortPermutes(s[1..], atMost);
      InsertKeeps(s[0], Sort(s[1..], atMost), atMost);
      assert |multiset(Sort(s, atMost))| == |Sort(s, atMost)|;
      assert |multiset(s)| == |s|;
    }
  }

  lemma {:induction false} InsertSorted<T(!new)>(x: T, s: seq<T>, atMost: (T, T) -> bool)
    requires TotalPreorder(atMost) && SortedBy(s, atMost)
    ensures SortedBy(Insert(x, s, atMost), atMost)
  {
    if s == [] || atMost(x, s[0]) {
      forall j | 0 <= j < |s| ensures s != [] && atMost(x, s[j]) {
        assert j == 0 || atMost(s[0], s[j]);
      }
    } else {
      var rest := Insert(x, s[1..], atMost);
      InsertSorted(x, s[1..], atMost);
      InsertKeeps(x, s[1..], atMost);
      forall j | 0 <= j < |rest| ensures atMost(s[0], rest[j]) {
        assert rest[j] in multiset(rest);
        assert rest[j] == x || rest[j] in s[1..];
      }
    }
  }

  lemma {:induction false} SortSorts<T(!new)>(s: seq<T>, atMost: (T, T) -> bool)
    requires TotalPreorder(atMost)
    ensures SortedBy(Sort(s, atMost), atMost)
  {
    if s != [] {
      SortSorts(s[1..], atMost);
      InsertSorted(s[0], Sort(s[1..], atMost), atMost);
    }
  }

  /** One way to sort, known by its contract only. */
  method ParallelSort<T(!new)>(s: seq<T>, atMost: (T, T) -> bool) returns (sorted: seq<T>)
    requires TotalPreorder(atMost)
    ensures IsSorting(s, sorted, atMost)
  {
    sorted := Sort(s, atMost);
    SortPermutes(s, atMost);
    SortSorts(s, atMost);
  }

  lemma SortingKeepsLength<T>(s: seq<T>, sorted: seq<T>, atMost: (T, T) -> bool)
    requires IsSorting(s, sorted, atMost)
    ensures |sorted| == |s| && forall x :: x in sorted <==> x in s
  {
    assert |multiset(sorted)| == |multiset(s)|;
    assert forall x :: (x in sorted <==> x in multiset(sorted)) && (x in s <==> x in multiset(s));
  }
}
