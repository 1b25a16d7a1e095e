/** Two lists of location ids: the total distance between them and their
    similarity score. */
module Y2024Day01 {
  import opened SeqUtil

  /** `max(a, b) - min(a, b)`. */
  function AbsDiff(a: int, b: int): (r: int)
    ensures r >= 0 && (r == 0 <==> a == b)
  {
    if a >= b then a - b else b - a
  }

  /** `zip(..).map(max - min)`: pairwise distances, as many as the shorter list. */
  function Distances(s1: seq<int>, s2: seq<int>): (r: seq<int>)
    ensures |r| == if |s1| <= |s2| then |s1| else |s2|
    ensures forall k :: 0 <= k < |r| ==> r[k] == AbsDiff(s1[k], s2[k])
  {
    var n := if |s1| <= |s2| then |s1| else |s2|;
    seq(n, k requires 0 <= k < n => AbsDiff(s1[k], s2[k]))
  }

  /** `total_distance`: sort both lists, pair them up and sum the distances. */
  function TotalDistance(list1: seq<nat>, list2: seq<nat>): int {
    Sum(Distances(SortInts(list1), SortInts(list2)))
  }

  lemma {:induction false} SumNonNegative(s: seq<int>)
    requires forall k :: 0 <= k < |s| ==> s[k] >= 0
    ensures Sum(s) >= 0
  {
    if s != [] {
      SumNonNegative(s[..|s| - 1]);
    }
  }

  lemma {:induction false} SumZeros(s: seq<int>)
    requires forall k :: 0 <= k < |s| ==> s[k] == 0
    ensures Sum(s) == 0
  {
    if s != [] {
      SumZeros(s[..|s| - 1]);
    }
  }

  /** The total distance is never negative, and is zero between a list and itself. */
  lemma TotalDistanceSelf(list1: seq<nat>, list2: seq<nat>)
    ensures TotalDistance(list1, list2) >= 0
    ensures TotalDistance(list1, list1) == 0
  {
    SumNonNegative(Distances(SortInts(list1), SortInts(list2)));
    SumZeros(Distances(SortInts(list1), SortInts(list1)));
  }

  /** The total distance does not depend on which list comes first. */
  lemma TotalDistanceSymmetric(list1: seq<nat>, list2: seq<nat>)
    ensures TotalDistance(list1, list2) == TotalDistance(list2, list1)
  {
    var s1, s2 := SortInts(list1), SortInts(list2);
    assert Distances(s1, s2) == Distances(s2, s1);
  }

  /** The total distance depends only on which ids each list holds, not on
      their order. */
  lemma TotalDistancePermutation(list1: seq<nat>, perm1: seq<nat>, list2: seq<nat>, perm2: seq<nat>)
    requires multiset(list1) == multiset(perm1) && multiset(list2) == multiset(perm2)
    ensures TotalDistance(list1, list2) == TotalDistance(perm1, perm2)
  {
    SortedUnique(SortInts(list1), SortInts(perm1));
    SortedUnique(SortInts(list2), SortInts(perm2));
  }

  /** `similarity`: each id of the first list times how often it occurs in
      the second. */
  function Similarity(list1: seq<nat>, list2: seq<nat>): nat {
    if list1 == [] then 0
    else
      var x := list1[|list1| - 1];
      Similarity(list1[..|list1| - 1], list2) + x * Count(list2, x)
  }

  lemma {:induction false} SimilarityAppend(a: seq<nat>, b: seq<nat>, list2: seq<nat>)
    ensures Similarity(a + b, list2) == Similarity(a, list2) + Similarity(b, list2)
    decreases |b|
  {
    if b == [] {
      assert a + b == a;
    } else {
      var init := b[..|b| - 1];
      assert (a + b)[..|a + b| - 1] == a + init;
      SimilarityAppend(a, init, list2);
    }
  }

  /** Taking out one id takes out its share of the similarity. */
  lemma SimilarityRemove(s: seq<nat>, i: nat, list2: seq<nat>)
    requires i < |s|
    ensures Similarity(s, list2) == Similarity(s[..i] + s[i + 1..], list2) + s[i] * Count(list2, s[i])
  {
    var x := s[i];
    RemoveAt(s, i);
    SimilarityAppend(s[..i] + [x], s[i + 1..], list2);
    SimilarityAppend(s[..i], [x], list2);
    SimilarityAppend(s[..i], s[i + 1..], list2);
    assert [x][..0] == [];
  }

  /** The similarity depends only on which ids the first list holds. */
  lemma {:induction false} SimilarityPermutation1(list1: seq<nat>, perm1: seq<nat>, list2: seq<nat>)
    requires multiset(list1) == multiset(perm1)
    ensures Similarity(list1, list2) == Similarity(perm1, list2)
    decreases |list1|
  {
    if list1 != [] {
      var init, x := list1[..|list1| - 1], list1[|list1| - 1];
      assert list1 == init + [x];
      assert multiset(init) == multiset(list1) - multiset{x};
      assert x in multiset(perm1);
      var i :| 0 <= i < |perm1| && perm1[i] == x;
      RemoveAt(perm1, i);
      SimilarityRemove(perm1, i, list2);
      var rest := perm1[..i] + perm1[i + 1..];
      SimilarityPermutation1(init, rest, list2);
      var share := x * Count(list2, x);
      assert Similarity(list1, list2) == Similarity(init, list2) + share;
      assert Similarity(perm1, list2) == Similarity(rest, list2) + share;
    }
  }

  /** The similarity depends only on which ids the second list holds. */
  lemma {:induction false} SimilarityPermutation2(list1: seq<nat>, list2: seq<nat>, perm2: seq<nat>)
    requires multiset(list2) == multiset(perm2)
    ensures Similarity(list1, list2) == Similarity(list1, perm2)
    decreases |list1|
  {
    if list1 != [] {
      SimilarityPermutation2(list1[..|list1| - 1], list2, perm2);
    }
  }
}
