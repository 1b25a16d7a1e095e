/** 2025 day 8: junction boxes in space are joined into circuits, closest
    pairs first; part 1 multiplies the sizes of the largest circuits after a
    fixed number of connections. */
module Y2025Day08 {
  import opened Wrappers
  import opened Text
  import opened SeqUtil

  /** `Coord`: a junction box position, three `u64`. */
  datatype Coord = Coord(x: nat, y: nat, z: nat)

  /** `u64::abs_diff`. */
  function AbsDiff(a: nat, b: nat): nat {
    if a >= b then a - b else b - a
  }

  /** `Coord::dist_squared`: the squared Euclidean distance. */
  function DistSquared(a: Coord, b: Coord): nat {
    AbsDiff(a.x, b.x) * AbsDiff(a.x, b.x) + AbsDiff(a.y, b.y) * AbsDiff(a.y, b.y)
      + AbsDiff(a.z, b.z) * AbsDiff(a.z, b.z)
  }

  /** The distance is symmetric, and zero exactly between equal positions. */
  lemma DistSquaredFacts(a: Coord, b: Coord)
    ensures DistSquared(a, b) == DistSquared(b, a)
    ensures DistSquared(a, b) == 0 <==> a == b
  {
    if a != b {
      if a.x != b.x {
        Positive(AbsDiff(a.x, b.x));
      } else if a.y != b.y {
        Positive(AbsDiff(a.y, b.y));
      } else {
        Positive(AbsDiff(a.z, b.z));
      }
    }
  }

  lemma Positive(d: nat)
    requires d >= 1
    ensures d * d >= 1
  {
  }

  /** The sort key of `sortedcombinations`. */
  function PairDist(p: (Coord, Coord)): int {
    DistSquared(p.0, p.1)
  }

  /** `sortedcombinations`: every pair `(boxes[i], boxes[j])` with i < j, in
      the order of the nested loops, then stably sorted by distance.
      `boxes.len() - 1` underflows on an empty list. */
  method SortedCombinations(boxes: seq<Coord>) returns (combinations: seq<(Coord, Coord)>)
    requires |boxes| >= 1
    ensures combinations == SortByKey(Combinations(boxes), PairDist)
  {
    var n := |boxes|;
    var unsorted: seq<(Coord, Coord)> := [];
    for i := 0 to n - 1
      invariant unsorted == PairsAt(boxes, PairRows(i, n))
    {
      var row := PairsFrom(boxes, i);
      PairsAtAppend(boxes, PairRows(i, n), PairRow(i, n));
      unsorted := unsorted + row;
    }
    combinations := SortByKey(unsorted, PairDist);
  }

  /** The pairs `sortedcombinations` sorts, in loop order. */
  function Combinations(boxes: seq<Coord>): seq<(Coord, Coord)> {
    PairsAt(boxes, AllPairs(|boxes|))
  }

  /** The combinations hold n(n-1)/2 pairs, closest first, and are a
      rearrangement of the loop's pairs. */
  lemma CombinationsSorted(boxes: seq<Coord>)
    ensures var c := SortByKey(Combinations(boxes), PairDist);
      2 * |c| == |boxes| * (|boxes| - 1)
      && SortedBy(c, PairDist)
      && multiset(c) == multiset(Combinations(boxes))
  {
    AllPairsCount(|boxes|);
    SortSorted(Combinations(boxes), PairDist);
    SortMultiset(Combinations(boxes), PairDist);
  }

  /** Every pair i < j is among the combinations. */
  lemma CombinationsComplete(boxes: seq<Coord>)
    ensures forall i, j :: 0 <= i < j < |boxes| ==> (boxes[i], boxes[j]) in SortByKey(Combinations(boxes), PairDist)
  {
    var n := |boxes|;
    var pairs := Combinations(boxes);
    AllPairsMembers(n);
    SortMultiset(pairs, PairDist);
    var c := SortByKey(pairs, PairDist);
    forall i, j | 0 <= i < j < n ensures (boxes[i], boxes[j]) in c {
      assert (i, j) in AllPairs(n);
      var k :| 0 <= k < |AllPairs(n)| && AllPairs(n)[k] == (i, j);
      assert pairs[k] == (boxes[i], boxes[j]);
      assert pairs[k] in multiset(c);
    }
  }

  // Circuits

  /** The first circuit that holds `c` (`iter().position(..contains(c))`). */
  function Position(sets: seq<set<Coord>>, c: Coord): (r: Option<nat>)
    ensures r.Some? ==> (r.value < |sets| && c in sets[r.value]
      && forall k :: 0 <= k < r.value ==> c !in sets[k])
    ensures r.None? ==> forall k :: 0 <= k < |sets| ==> c !in sets[k]
  {
    if sets == [] then None
    else if c in sets[0] then Some(0)
    else match Position(sets[1..], c)
      case None => None
      case Some(k) => Some(k + 1)
  }

  /** The first circuit that holds `a` or `b` (`iter_mut().find(..)`). */
  function PositionEither(sets: seq<set<Coord>>, a: Coord, b: Coord): (r: Option<nat>)
    ensures r.Some? ==> (r.value < |sets| && (a in sets[r.value] || b in sets[r.value])
      && forall k :: 0 <= k < r.value ==> a !in sets[k] && b !in sets[k])
    ensures r.None? ==> forall k :: 0 <= k < |sets| ==> a !in sets[k] && b !in sets[k]
  {
    if sets == [] then None
    else if a in sets[0] || b in sets[0] then Some(0)
    else match PositionEither(sets[1..], a, b)
      case None => None
      case Some(k) => Some(k + 1)
  }

  /** `merge_two_sets` on the list of circuits: when `a` and `b` lie in two
      different circuits, the first becomes their union and the second goes. */
  function MergedSets(sets: seq<set<Coord>>, a: Coord, b: Coord): seq<set<Coord>> {
    var p1, p2 := Position(sets, a), Position(sets, b);
    if p1.Some? && p2.Some? && p1.value != p2.value then
      var joined := sets[p1.value := sets[p1.value] + sets[p2.value]];
      joined[..p2.value] + joined[p2.value + 1..]
    else sets
  }

  /** One turn of the loop of `connect_boxes`: merge, then add both boxes to
      the first circuit holding either, or open a new circuit of the two. */
  function ConnectStep(sets: seq<set<Coord>>, a: Coord, b: Coord): seq<set<Coord>> {
    var merged := MergedSets(sets, a, b);
    match PositionEither(merged, a, b)
    case Some(k) => merged[k := merged[k] + {a, b}]
    case None => merged + [{a, b}]
  }

  /** The circuits after connecting the given pairs in order, from none. */
  function ConnectAll(pairs: seq<(Coord, Coord)>): seq<set<Coord>> {
    if pairs == [] then []
    else
      var last := pairs[|pairs| - 1];
      ConnectStep(ConnectAll(pairs[..|pairs| - 1]), last.0, last.1)
  }

  function Min(a: nat, b: nat): nat {
    if a <= b then a else b
  }

  /** The circuit list that `connect_boxes` updates in place. */
  class Circuits {
    var sets: seq<set<Coord>>

    constructor()
      ensures sets == []
    {
      sets := [];
    }

    /** `merge_two_sets`. */
    method MergeTwoSets(a: Coord, b: Coord)
      modifies this
      ensures sets == MergedSets(old(sets), a, b)
    {
      var circuit1 := Position(sets, a);
      var circuit2 := Position(sets, b);
      if circuit1.Some? && circuit2.Some? && circuit1.value != circuit2.value {
        sets := sets[circuit1.value := sets[circuit1.value] + sets[circuit2.value]];
        sets := sets[..circuit2.value] + sets[circuit2.value + 1..];
      }
    }

    /** The body of the loop of `connect_boxes` for one pair. */
    method Connect(a: Coord, b: Coord)
      modifies this
      ensures sets == ConnectStep(old(sets), a, b)
    {
      MergeTwoSets(a, b);
      var suitable := PositionEither(sets, a, b);
      match suitable {
        case Some(k) => sets := sets[k := sets[k] + {a, b}];
        case None => sets := sets + [{a, b}];
      }
    }
  }

  /** `connect_boxes`: connects the first `nconnections` pairs. */
  method ConnectBoxes(combinations: seq<(Coord, Coord)>, nconnections: nat) returns (sets: seq<set<Coord>>)
    ensures sets == ConnectAll(combinations[..Min(nconnections, |combinations|)])
  {
    var circuits := new Circuits();
    var m := Min(nconnections, |combinations|);
    for k := 0 to m
      invariant circuits.sets == ConnectAll(combinations[..k])
    {
      assert combinations[..k + 1][..k] == combinations[..k];
      circuits.Connect(combinations[k].0, combinations[k].1);
    }
    sets := circuits.sets;
  }

  // What the circuits hold

  /** Every box in some circuit. */
  function Union(sets: seq<set<Coord>>): set<Coord> {
    if sets == [] then {} else Union(sets[..|sets| - 1]) + sets[|sets| - 1]
  }

  lemma {:induction false} UnionMembers(sets: seq<set<Coord>>)
    ensures forall c :: c in Union(sets) <==> exists k :: 0 <= k < |sets| && c in sets[k]
  {
    if sets != [] {
      var init := sets[..|sets| - 1];
      UnionMembers(init);
      forall c | c in Union(sets) ensures exists k :: 0 <= k < |sets| && c in sets[k] {
        if c in Union(init) {
          var k :| 0 <= k < |init| && c in init[k];
          assert sets[k] == init[k];
        }
      }
      forall c, k | 0 <= k < |sets| && c in sets[k] ensures c in Union(sets) {
        if k < |init| {
          assert init[k] == sets[k];
        }
      }
    }
  }

  /** No box lies in two circuits. */
  predicate Disjoint(sets: seq<set<Coord>>) {
    forall i, j :: 0 <= i < j < |sets| ==> sets[i] * sets[j] == {}
  }

  /** Two boxes in one circuit. */
  predicate Together(sets: seq<set<Coord>>, a: Coord, b: Coord) {
    exists k :: 0 <= k < |sets| && a in sets[k] && b in sets[k]
  }

  /** Where a circuit of the old list ends up after the merge. */
  lemma MergedMembers(sets: seq<set<Coord>>, a: Coord, b: Coord, i: nat)
    requires i < |sets|
    ensures exists k :: 0 <= k < |MergedSets(sets, a, b)| && sets[i] <= MergedSets(sets, a, b)[k]
  {
    var p1, p2 := Position(sets, a), Position(sets, b);
    var r := MergedSets(sets, a, b);
    if p1.Some? && p2.Some? && p1.value != p2.value {
      var q1, q2 := p1.value, p2.value;
      var target := if i == q2 then q1 else i;
      var k := if target < q2 then target else target - 1;
      assert sets[i] <= r[k];
    } else {
      assert sets[i] <= r[i];
    }
  }

  /** Every circuit after the merge is a circuit of before, or the union of two. */
  lemma MergedFrom(sets: seq<set<Coord>>, a: Coord, b: Coord, k: nat)
    requires k < |MergedSets(sets, a, b)|
    ensures (exists i :: 0 <= i < |sets| && MergedSets(sets, a, b)[k] == sets[i])
      || (Position(sets, a).Some? && Position(sets, b).Some?
          && MergedSets(sets, a, b)[k] == sets[Position(sets, a).value] + sets[Position(sets, b).value])
  {
    var p1, p2 := Position(sets, a), Position(sets, b);
    var r := MergedSets(sets, a, b);
    if p1.Some? && p2.Some? && p1.value != p2.value {
      var q1, q2 := p1.value, p2.value;
      var joined := sets[q1 := sets[q1] + sets[q2]];
      assert r == joined[..q2] + joined[q2 + 1..];
      var i := if k < q2 then k else k + 1;
      assert r[k] == joined[i];
      if i != q1 {
        assert joined[i] == sets[i];
      }
    }
  }

  /** Merging keeps the boxes, loses at most one circuit, and puts the pair
      into one circuit when both are in some circuit. */
  lemma MergeFacts(sets: seq<set<Coord>>, a: Coord, b: Coord)
    ensures Union(MergedSets(sets, a, b)) == Union(sets)
    ensures |sets| - 1 <= |MergedSets(sets, a, b)| <= |sets|
    ensures Position(sets, a).Some? && Position(sets, b).Some? ==> Together(MergedSets(sets, a, b), a, b)
  {
    var r := MergedSets(sets, a, b);
    UnionMembers(sets);
    UnionMembers(r);
    forall c | c in Union(sets) ensures c in Union(r) {
      var i :| 0 <= i < |sets| && c in sets[i];
      MergedMembers(sets, a, b, i);
    }
    forall c | c in Union(r) ensures c in Union(sets) {
      var k :| 0 <= k < |r| && c in r[k];
      MergedFrom(sets, a, b, k);
    }
    var p1, p2 := Position(sets, a), Position(sets, b);
    if p1.Some? && p2.Some? {
      if p1.value == p2.value {
        assert a in r[p1.value] && b in r[p1.value];
      } else {
        var q1, q2 := p1.value, p2.value;
        var k := if q1 < q2 then q1 else q1 - 1;
        assert a in r[k] && b in r[k];
      }
    }
  }

  /** Merging keeps together boxes that were together. */
  lemma MergeKeepsTogether(sets: seq<set<Coord>>, a: Coord, b: Coord, c: Coord, d: Coord)
    requires Together(sets, c, d)
    ensures Together(MergedSets(sets, a, b), c, d)
  {
    var i :| 0 <= i < |sets| && c in sets[i] && d in sets[i];
    MergedMembers(sets, a, b, i);
  }

  /** Merging keeps the circuits apart. */
  lemma MergeDisjoint(sets: seq<set<Coord>>, a: Coord, b: Coord)
    requires Disjoint(sets)
    ensures Disjoint(MergedSets(sets, a, b))
  {
    var p1, p2 := Position(sets, a), Position(sets, b);
    if p1.Some? && p2.Some? && p1.value != p2.value {
      var q1, q2 := p1.value, p2.value;
      var r := MergedSets(sets, a, b);
      forall i, j | 0 <= i < j < |r| ensures r[i] * r[j] == {} {
        var oi := if i < q2 then i else i + 1;
        var oj := if j < q2 then j else j + 1;
        assert oi < oj && oi != q2 && oj != q2;
        if oi == q1 {
          assert r[i] == sets[q1] + sets[q2] && r[j] == sets[oj];
          assert sets[Min(q1, oj)] * sets[if q1 < oj then oj else q1] == {};
          assert sets[Min(q2, oj)] * sets[if q2 < oj then oj else q2] == {};
        } else if oj == q1 {
          assert r[j] == sets[q1] + sets[q2] && r[i] == sets[oi];
          assert sets[Min(q2, oi)] * sets[if q2 < oi then oi else q2] == {};
        } else {
          assert r[i] == sets[oi] && r[j] == sets[oj];
        }
      }
    }
  }

  /** In disjoint circuits a box is in no circuit but its own. */
  lemma OnlyIn(r: seq<set<Coord>>, k: nat, x: Coord)
    requires Disjoint(r) && k < |r| && x in r[k]
    ensures forall j :: 0 <= j < |r| && j != k ==> x !in r[j]
  {
    forall j | 0 <= j < |r| && j != k ensures x !in r[j] {
      if j < k {
        assert x !in r[j] * r[k];
      } else {
        assert x !in r[k] * r[j];
      }
    }
  }

  /** A box in no circuit of `sets` is in no circuit after the merge. */
  lemma AbsentAfterMerge(sets: seq<set<Coord>>, a: Coord, b: Coord, x: Coord)
    requires Position(sets, x).None?
    ensures forall j :: 0 <= j < |MergedSets(sets, a, b)| ==> x !in MergedSets(sets, a, b)[j]
  {
    var r := MergedSets(sets, a, b);
    UnionMembers(sets);
    UnionMembers(r);
    MergeFacts(sets, a, b);
    assert x !in Union(sets);
  }

  /** In disjoint circuits, after the merge both boxes of the pair are in the
      circuit that `find` picks, if either is anywhere. */
  lemma FoundHoldsBoth(sets: seq<set<Coord>>, a: Coord, b: Coord, k: nat)
    requires Disjoint(sets)
    requires PositionEither(MergedSets(sets, a, b), a, b) == Some(k)
    ensures var r := MergedSets(sets, a, b);
      forall j :: 0 <= j < |r| && j != k ==> a !in r[j] && b !in r[j]
  {
    var r := MergedSets(sets, a, b);
    MergeDisjoint(sets, a, b);
    var p1, p2 := Position(sets, a), Position(sets, b);
    if p1.Some? && p2.Some? {
      MergeFacts(sets, a, b);
      var t :| 0 <= t < |r| && a in r[t] && b in r[t];
      OnlyIn(r, t, a);
      OnlyIn(r, t, b);
    } else if p1.Some? {
      AbsentAfterMerge(sets, a, b, b);
      OnlyIn(r, k, a);
    } else {
      AbsentAfterMerge(sets, a, b, a);
      OnlyIn(r, k, b);
    }
  }

  /** One connection adds the pair's boxes. */
  lemma ConnectStepUnion(sets: seq<set<Coord>>, a: Coord, b: Coord)
    ensures Union(ConnectStep(sets, a, b)) == Union(sets) + {a, b}
  {
    var merged := MergedSets(sets, a, b);
    var r := ConnectStep(sets, a, b);
    MergeFacts(sets, a, b);
    UnionMembers(merged);
    UnionMembers(r);
    match PositionEither(merged, a, b)
    case Some(k) =>
      forall c | c in Union(r) ensures c in Union(merged) + {a, b} {
        var i :| 0 <= i < |r| && c in r[i];
        if c != a && c != b {
          assert c in merged[i];
        }
      }
      forall c | c in Union(merged) + {a, b} ensures c in Union(r) {
        if c in Union(merged) {
          var i :| 0 <= i < |merged| && c in merged[i];
          assert c in r[i];
        } else {
          assert c in r[k];
        }
      }
    case None =>
      assert r[..|r| - 1] == merged;
  }

  /** One connection keeps the circuits apart. */
  lemma ConnectStepDisjoint(sets: seq<set<Coord>>, a: Coord, b: Coord)
    requires Disjoint(sets)
    ensures Disjoint(ConnectStep(sets, a, b))
  {
    var merged := MergedSets(sets, a, b);
    var r := ConnectStep(sets, a, b);
    MergeDisjoint(sets, a, b);
    match PositionEither(merged, a, b)
    case Some(k) =>
      FoundHoldsBoth(sets, a, b, k);
      forall i, j | 0 <= i < j < |r| ensures r[i] * r[j] == {} {
        assert merged[i] * merged[j] == {};
      }
    case None =>
      assert r[|merged|] == {a, b};
      forall i, j | 0 <= i < j < |r| ensures r[i] * r[j] == {} {
        if j < |merged| {
          assert r[i] == merged[i] && r[j] == merged[j];
        } else {
          assert r[i] == merged[i];
        }
      }
  }

  /** One connection puts the pair into one circuit. */
  lemma ConnectStepJoins(sets: seq<set<Coord>>, a: Coord, b: Coord)
    ensures Together(ConnectStep(sets, a, b), a, b)
  {
    var merged := MergedSets(sets, a, b);
    var r := ConnectStep(sets, a, b);
    match PositionEither(merged, a, b)
    case Some(k) =>
      assert a in r[k] && b in r[k];
    case None =>
      assert r[|merged|] == {a, b};
  }

  /** One connection keeps together what was together. */
  lemma ConnectStepKeepsTogether(sets: seq<set<Coord>>, a: Coord, b: Coord, c: Coord, d: Coord)
    requires Together(sets, c, d)
    ensures Together(ConnectStep(sets, a, b), c, d)
  {
    var merged := MergedSets(sets, a, b);
    var r := ConnectStep(sets, a, b);
    MergeKeepsTogether(sets, a, b, c, d);
    var i :| 0 <= i < |merged| && c in merged[i] && d in merged[i];
    assert c in r[i] && d in r[i];
  }

  /** The boxes of the given pairs. */
  function Boxes(pairs: seq<(Coord, Coord)>): set<Coord> {
    if pairs == [] then {} else Boxes(pairs[..|pairs| - 1]) + {pairs[|pairs| - 1].0, pairs[|pairs| - 1].1}
  }

  /** After connecting pairs the circuits are pairwise disjoint and hold
      exactly the boxes of the pairs. */
  lemma {:induction false} ConnectAllDisjoint(pairs: seq<(Coord, Coord)>)
    ensures Disjoint(ConnectAll(pairs))
    ensures Union(ConnectAll(pairs)) == Boxes(pairs)
  {
    if pairs != [] {
      var init := pairs[..|pairs| - 1];
      var last := pairs[|pairs| - 1];
      ConnectAllDisjoint(init);
      ConnectStepDisjoint(ConnectAll(init), last.0, last.1);
      ConnectStepUnion(ConnectAll(init), last.0, last.1);
    }
  }

  /** After connecting pairs, every connected pair shares a circuit. */
  lemma {:induction false} ConnectAllTogether(pairs: seq<(Coord, Coord)>, k: nat)
    requires k < |pairs|
    ensures Together(ConnectAll(pairs), pairs[k].0, pairs[k].1)
  {
    var init := pairs[..|pairs| - 1];
    var last := pairs[|pairs| - 1];
    var before := ConnectAll(init);
    if k == |pairs| - 1 {
      ConnectStepJoins(before, last.0, last.1);
    } else {
      ConnectAllTogether(init, k);
      assert pairs[k] == init[k];
      ConnectStepKeepsTogether(before, last.0, last.1, init[k].0, init[k].1);
    }
  }

  // Part 1

  /** The sort key of `sort_by_key(|set| Reverse(set.len()))`: larger first. */
  function Largeness(s: set<Coord>): int {
    -|s|
  }

  function Sizes(sets: seq<set<Coord>>): (r: seq<int>)
    ensures |r| == |sets| && forall k :: 0 <= k < |sets| ==> r[k] == |sets[k]|
  {
    seq(|sets|, k requires 0 <= k < |sets| => |sets[k]|)
  }

  /** `part1`: connect the `nconnections` closest pairs, sort the circuits by
      size, largest first, and multiply the sizes of the first `nlargest`. */
  method Part1(boxes: seq<Coord>, nconnections: nat, nlargest: nat) returns (r: int)
    requires |boxes| >= 1
    ensures var sorted := SortByKey(Circuits1(boxes, nconnections), Largeness);
      r == Product(Sizes(sorted[..Min(nlargest, |sorted|)]))
  {
    var combinations := SortedCombinations(boxes);
    var circuitSets := ConnectBoxes(combinations, nconnections);
    circuitSets := SortByKey(circuitSets, Largeness);
    r := Product(Sizes(circuitSets[..Min(nlargest, |circuitSets|)]));
  }

  /** The circuits part 1 builds. */
  function Circuits1(boxes: seq<Coord>, nconnections: nat): seq<set<Coord>>
    requires |boxes| >= 1
  {
    var c := SortByKey(Combinations(boxes), PairDist);
    ConnectAll(c[..Min(nconnections, |c|)])
  }

  /** The circuits part 1 multiplies are the largest: sorted by size
      descending, a rearrangement of all circuits, and none left out is larger
      than one taken. */
  lemma Part1TakesLargest(sets: seq<set<Coord>>, nlargest: nat)
    ensures var sorted := SortByKey(sets, Largeness);
      multiset(sorted) == multiset(sets)
      && (forall i, j :: 0 <= i < j < |sorted| ==> |sorted[i]| >= |sorted[j]|)
      && forall i, j :: 0 <= i < Min(nlargest, |sorted|) <= j < |sorted| ==> |sorted[i]| >= |sorted[j]|
  {
    SortSorted(sets, Largeness);
    SortMultiset(sets, Largeness);
  }

  // Parsing

  /** One line `x,y,z`: the first three comma-separated numbers. */
  function ParseCoord(line: String): (r: Option<Coord>)
    ensures r.Some? <==> (|Split(line, ',')| >= 3 && ParseU64(Split(line, ',')[0]).Some?
      && ParseU64(Split(line, ',')[1]).Some? && ParseU64(Split(line, ',')[2]).Some?)
    ensures r.Some? ==> r.value.x < U64_LIMIT && r.value.y < U64_LIMIT && r.value.z < U64_LIMIT
  {
    var nums := Split(line, ',');
    if |nums| < 3 then None
    else match (ParseU64(nums[0]), ParseU64(nums[1]), ParseU64(nums[2]))
      case (Some(x), Some(y), Some(z)) => Some(Coord(x, y, z))
      case _ => None
  }

  /** `parse`: one box per line. */
  function Parse(input: String): (r: Option<seq<Coord>>)
    ensures r.Some? <==> forall k :: 0 <= k < |Lines(input)| ==> ParseCoord(Lines(input)[k]).Some?
    ensures r.Some? ==> (|r.value| == |Lines(input)|
      && forall k :: 0 <= k < |r.value| ==> ParseCoord(Lines(input)[k]) == Some(r.value[k]))
  {
    MapAll(Lines(input), ParseCoord)
  }

  /** Three digit strings joined by commas split back at the commas. */
  lemma CommaSplits(a: String, b: String, d: String)
    requires AllDigits(a) && AllDigits(b) && AllDigits(d)
    ensures Split(a + "," + b + "," + d, ',') == [a, b, d]
  {
    DigitsAvoid(a, ',');
    DigitsAvoid(b, ',');
    DigitsAvoid(d, ',');
    SplitJoin([a, b, d], ',');
    JoinThree(a, b, d);
  }

  lemma JoinThree(a: String, b: String, d: String)
    ensures Join([a, b, d], ",") == a + "," + b + "," + d
  {
    var parts := [a, b, d];
    assert parts[1..] == [b, d] && [b, d][1..] == [d];
    assert Join([d], ",") == d;
    var tail := Join([b, d], ",");
    assert tail == b + "," + Join([d], ",");
    assert Join(parts, ",") == (a + ",") + tail;
    AppendAssoc(a + ",", b + ",", d);
    AppendAssoc(a + ",", b, ",");
  }

  /** A box written as `x,y,z` parses back when its coordinates fit in a
      `u64`. */
  lemma ParseCoordFormat(c: Coord)
    requires c.x < U64_LIMIT && c.y < U64_LIMIT && c.z < U64_LIMIT
    ensures ParseCoord(NatToText(c.x) + "," + NatToText(c.y) + "," + NatToText(c.z)) == Some(c)
  {
    CommaSplits(NatToText(c.x), NatToText(c.y), NatToText(c.z));
    ParseU64ToText(c.x);
    ParseU64ToText(c.y);
    ParseU64ToText(c.z);
  }
}
