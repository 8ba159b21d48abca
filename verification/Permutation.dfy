/** In-place permutation by walking cycles, and the permutation that an ordering stands for. */
module Permutation {

  ghost predicate IsPermutation(p: seq<nat>) {
    && (forall i :: 0 <= i < |p| ==> p[i] < |p|)
    && (forall i, j :: 0 <= i < j < |p| ==> p[i] != p[j])
  }

  /** `orderingToPermutation`: the inverse of an ordering. */
  method OrderingToPermutation(ordering: seq<nat>) returns (permutation: seq<nat>)
    requires IsPermutation(ordering)
    ensures |permutation| == |ordering|
    ensures forall i :: 0 <= i < |ordering| ==> permutation[ordering[i]] == i
  {
    permutation := seq(|ordering|, _ => 0);
    for index := 0 to |ordering|
      invariant |permutation| == |ordering|
      invariant forall i :: 0 <= i < index ==> permutation[ordering[i]] == i
    {
      permutation := permutation[ordering[index] := index];
    }
  }

  /** The cycles finished so far: `done` is closed under the permutation in both directions. */
  ghost predicate Closed(p: seq<nat>, done: set<nat>)
    requires IsPermutation(p)
  {
    forall k: nat :: k < |p| ==> (k in done <==> p[k] in done)
  }

  ghost predicate Moved<T>(p: seq<nat>, done: set<nat>, was: seq<T>, now: seq<T>)
    requires IsPermutation(p) && |was| == |now| == |p|
  {
    && (forall k: nat :: k < |p| && k in done ==> now[p[k]] == was[k])
    && (forall j: nat :: j < |p| && j !in done ==> now[j] == was[j])
  }

  /** `inplacePermutation`: element i moves to position oldToNew[i]. */
  method InplacePermutation<T>(a: array<T>, oldToNew: seq<nat>)
    requires IsPermutation(oldToNew) && |oldToNew| == a.Length
    modifies a
    ensures forall i :: 0 <= i < |oldToNew| ==> a[oldToNew[i]] == old(a[i])
  {
    hide Closed, Moved, IsPermutation;
    var replaced: set<nat> := {};
    NothingMoved(oldToNew, a[..]);
    for index := 0 to a.Length
      invariant forall k :: 0 <= k < index ==> k in replaced
      invariant Closed(oldToNew, replaced) && Moved(oldToNew, replaced, old(a[..]), a[..])
    {
      if index in replaced {
        continue;
      }
      if oldToNew[index] == index {
        FixedPoint(oldToNew, index, replaced, old(a[..]), a[..]);
        replaced := replaced + {index};
        continue;
      }
      replaced := WalkCycle(a, oldToNew, index, replaced, old(a[..]));
    }
    AllMoved(oldToNew, replaced, old(a[..]), a[..]);
  }

  lemma NothingMoved<T>(p: seq<nat>, was: seq<T>)
    requires IsPermutation(p) && |was| == |p|
    ensures Closed(p, {}) && Moved(p, {}, was, was)
  {
  }

  lemma FixedPoint<T>(p: seq<nat>, index: nat, done: set<nat>, was: seq<T>, now: seq<T>)
    requires IsPermutation(p) && index < |p| && p[index] == index && index !in done && |was| == |now| == |p|
    requires Closed(p, done) && Moved(p, done, was, now)
    ensures Closed(p, done + {index}) && Moved(p, done + {index}, was, now)
  {
  }

  lemma AllMoved<T>(p: seq<nat>, done: set<nat>, was: seq<T>, now: seq<T>)
    requires IsPermutation(p) && |was| == |now| == |p| && Moved(p, done, was, now)
    requires forall k :: 0 <= k < |p| ==> k in done
    ensures forall i :: 0 <= i < |p| ==> p[i] < |now| && now[p[i]] == was[i]
  {
  }

  /** One cycle: the walked nodes are `index`, ..., `oldIndex`. */
  ghost predicate OnCycle(p: seq<nat>, index: nat, done: set<nat>, walked: set<nat>, oldIndex: nat)
    requires IsPermutation(p)
  {
    && index < |p| && oldIndex < |p| && oldIndex !in done && oldIndex !in walked && walked !! done
    && (forall k: nat :: k in walked ==> k < |p|) && (index == oldIndex || index in walked)
    && (forall k: nat :: k in walked ==> p[k] != index && (p[k] in walked || p[k] == oldIndex))
    && (forall j: nat :: j < |p| && p[j] in walked + {oldIndex} && p[j] != index ==> j in walked)
  }

  /** The walked elements are in place, and `buffer` carries the element of `oldIndex`. */
  ghost predicate Walking<T>(p: seq<nat>, index: nat, done: set<nat>, walked: set<nat>, oldIndex: nat, buffer: T,
          was: seq<T>, now: seq<T>)
    requires IsPermutation(p) && |was| == |now| == |p|
  {
    && OnCycle(p, index, done, walked, oldIndex) && buffer == was[oldIndex]
    && (forall k: nat :: k < |p| && k in done + walked ==> now[p[k]] == was[k])
    && (forall j: nat :: j < |p| && j !in done && (j == index || j !in walked + {oldIndex}) ==> now[j] == was[j])
  }

  lemma NextIsNew(p: seq<nat>, index: nat, done: set<nat>, walked: set<nat>, oldIndex: nat)
    requires IsPermutation(p) && Closed(p, done) && OnCycle(p, index, done, walked, oldIndex) && p[oldIndex] != index
    ensures oldIndex < |p| && p[oldIndex] < |p| && p[oldIndex] !in done && p[oldIndex] !in walked
            && p[oldIndex] != oldIndex
    ensures forall k: nat :: k < |p| && k in done + walked ==> p[k] != p[oldIndex]
  {
  }

  lemma CycleStep(p: seq<nat>, index: nat, done: set<nat>, walked: set<nat>, oldIndex: nat)
    requires IsPermutation(p) && Closed(p, done) && OnCycle(p, index, done, walked, oldIndex) && p[oldIndex] != index
    ensures OnCycle(p, index, done, walked + {oldIndex}, p[oldIndex])
    ensures forall k: nat :: k < |p| && k in done + walked ==> p[k] != p[oldIndex]
  {
    hide Closed, IsPermutation;
    NextIsNew(p, index, done, walked, oldIndex);
    var next, now := p[oldIndex], walked + {oldIndex};
    forall k: nat | k in now ensures k < |p| && p[k] != index && (p[k] in now || p[k] == next) {
    }
    forall j: nat | j < |p| && p[j] in now + {next} && p[j] != index ensures j in now {
      if p[j] == next {
        Injective(p, j, oldIndex);
      }
    }
  }

  lemma Injective(p: seq<nat>, i: nat, j: nat)
    requires IsPermutation(p) && i < |p| && j < |p| && p[i] == p[j]
    ensures i == j
  {
  }

  ghost function Below(n: nat): (s: set<nat>)
    ensures forall k: nat :: k in s <==> k < n
  {
    if n == 0 then {} else Below(n - 1) + {n - 1}
  }

  lemma WalkStep<T>(p: seq<nat>, index: nat, done: set<nat>, walked: set<nat>, oldIndex: nat, buffer: T, was: seq<T>,
          now: seq<T>)
    requires IsPermutation(p) && |was| == |now| == |p| && Closed(p, done)
    requires Walking(p, index, done, walked, oldIndex, buffer, was, now) && p[oldIndex] != index
    ensures now[p[oldIndex]] == was[p[oldIndex]]
    ensures Walking(p, index, done, walked + {oldIndex}, p[oldIndex], now[p[oldIndex]], was, now[p[oldIndex] := buffer])
  {
    hide OnCycle, Closed;
    NextIsNew(p, index, done, walked, oldIndex);
    CycleStep(p, index, done, walked, oldIndex);
    CycleBounds(p, index, done, walked + {oldIndex}, p[oldIndex]);
    assert done + (walked + {oldIndex}) == done + walked + {oldIndex};
  }

  lemma CycleBounds(p: seq<nat>, index: nat, done: set<nat>, walked: set<nat>, oldIndex: nat)
    requires IsPermutation(p) && OnCycle(p, index, done, walked, oldIndex)
    ensures index < |p| && oldIndex < |p| && oldIndex !in done && oldIndex !in walked
  {
  }

  lemma WalkEnd<T>(p: seq<nat>, index: nat, done: set<nat>, walked: set<nat>, oldIndex: nat, buffer: T, was: seq<T>,
          now: seq<T>)
    requires IsPermutation(p) && |was| == |now| == |p| && Closed(p, done)
    requires Walking(p, index, done, walked, oldIndex, buffer, was, now) && p[oldIndex] == index
    ensures Closed(p, done + walked + {oldIndex}) && Moved(p, done + walked + {oldIndex}, was, now[index := buffer])
    ensures index in done + walked + {oldIndex}
  {
    assert forall k: nat :: k < |p| && k in done + walked ==> p[k] != index;
  }

  method Swap<T>(a: array<T>, i: nat, buffer: T) returns (taken: T)
    requires i < a.Length
    modifies a
    ensures taken == old(a[i]) && a[..] == old(a[..])[i := buffer]
  {
    taken := a[i];
    a[i] := buffer;
  }

  method WalkCycle<T>(a: array<T>, p: seq<nat>, index: nat, done: set<nat>, ghost was: seq<T>)
    returns (replaced: set<nat>)
    requires IsPermutation(p) && |p| == a.Length == |was| && index < |p| && index !in done
    requires Closed(p, done) && Moved(p, done, was, a[..])
    modifies a
    ensures Closed(p, replaced) && Moved(p, replaced, was, a[..]) && done + {index} <= replaced
  {
    var buffer := a[index];
    var oldIndex: nat, newIndex: nat := index, p[index];
    var walked: set<nat> := {};
    ghost var all := Below(|p|);
    assert Walking(p, index, done, walked, oldIndex, buffer, was, a[..]);
    hide Walking, Closed, Moved, IsPermutation;
    while newIndex != index
      invariant Walking(p, index, done, walked, oldIndex, buffer, was, a[..])
      invariant oldIndex < |p| && oldIndex !in walked && newIndex == p[oldIndex] < |p|
      decreases all - walked
    {
      ghost var now := a[..];
      WalkStep(p, index, done, walked, oldIndex, buffer, was, now);
      WalkBounds(p, index, done, walked + {oldIndex}, p[oldIndex], now[p[oldIndex]], was, now[p[oldIndex] := buffer]);
      walked := walked + {oldIndex};
      buffer := Swap(a, newIndex, buffer);
      oldIndex := newIndex;
      newIndex := p[newIndex];
    }
    WalkEnd(p, index, done, walked, oldIndex, buffer, was, a[..]);
    buffer := Swap(a, index, buffer);
    replaced := done + walked + {oldIndex};
  }

  lemma WalkBounds<T>(p: seq<nat>, index: nat, done: set<nat>, walked: set<nat>, oldIndex: nat, buffer: T, was: seq<T>,
          now: seq<T>)
    requires IsPermutation(p) && |was| == |now| == |p| && Walking(p, index, done, walked, oldIndex, buffer, was, now)
    ensures oldIndex < |p| && p[oldIndex] < |p| && oldIndex !in walked
  {
  }
}
