/** 2025 day 5: inclusive ranges of fresh ingredient ids; part 1 counts the
    available ids that some range contains, part 2 merges overlapping ranges
    and adds up their lengths. */
module Y2025Day05 {
  import opened Wrappers
  import opened Text

  /** `RangeInclusive<u64>`: `start..=end`, empty when `start > end`. */
  datatype Range = Range(start: nat, end: nat)

  /** `range.contains(x)`. */
  predicate Contains(r: Range, x: int) {
    r.start <= x <= r.end
  }

  /** The ids a range holds. */
  function Ids(r: Range): set<int> {
    set x | r.start <= x <= r.end && Contains(r, x)
  }

  /** The ids the ranges hold together. */
  function IdsOf(v: seq<Range>): set<int> {
    if v == [] then {} else Ids(v[0]) + IdsOf(v[1..])
  }

  /** Every range holds at least its start. */
  predicate WellFormed(v: seq<Range>) {
    forall k :: 0 <= k < |v| ==> v[k].start <= v[k].end
  }

  /** Every range has a length `end + 1 - start` that does not underflow. */
  predicate NoUnderflow(v: seq<Range>) {
    forall k :: 0 <= k < |v| ==> v[k].start <= v[k].end + 1
  }

  /** The test of `dedup_ranges`: one range contains the start or end of the other. */
  predicate Touch(prev: Range, cur: Range) {
    Contains(prev, cur.start) || Contains(cur, prev.start) || Contains(prev, cur.end) || Contains(cur, prev.end)
  }

  /** No two ranges touch. */
  predicate Apart(v: seq<Range>) {
    forall a, b :: 0 <= a < b < |v| ==> !Touch(v[a], v[b])
  }

  /** `merge_ranges`: from the smaller start to the larger end. */
  function MergeRanges(range1: Range, range2: Range): (r: Range)
    ensures r.start == range1.start || r.start == range2.start
    ensures r.end == range1.end || r.end == range2.end
    ensures forall x :: Contains(range1, x) || Contains(range2, x) ==> Contains(r, x)
  {
    var start := if range1.start <= range2.start then range1.start else range2.start;
    var end := if range1.end >= range2.end then range1.end else range2.end;
    Range(start, end)
  }

  /** For ranges that hold something, the test is "they share an id". */
  lemma TouchIff(a: Range, b: Range)
    requires a.start <= a.end && b.start <= b.end
    ensures Touch(a, b) <==> a.start <= b.end && b.start <= a.end
    ensures Touch(a, b) == Touch(b, a)
  {
  }

  /** Merging two touching ranges that hold something loses and adds no id. */
  lemma MergeIsUnion(a: Range, b: Range)
    requires a.start <= a.end && b.start <= b.end && Touch(a, b)
    ensures Ids(MergeRanges(a, b)) == Ids(a) + Ids(b)
  {
    TouchIff(a, b);
  }

  /** `.take(i).position(..)`: the first range before `cur` that touches it. */
  function Position(s: seq<Range>, cur: Range): (r: Option<nat>)
    ensures r.Some? ==> r.value < |s| && Touch(s[r.value], cur)
    ensures r.Some? ==> forall k :: 0 <= k < r.value ==> !Touch(s[k], cur)
    ensures r.None? ==> forall k :: 0 <= k < |s| ==> !Touch(s[k], cur)
  {
    if s == [] then None
    else if Touch(s[0], cur) then Some(0)
    else match Position(s[1..], cur)
      case Some(j) => Some(j + 1)
      case None => None
  }

  /** `dedup_ranges`: for each range in turn, merge it into the first earlier
      range it touches and go on right after that one; otherwise move on. */
  method DedupRanges(freshranges: seq<Range>) returns (v: seq<Range>)
    ensures |v| <= |freshranges|
    ensures NoUnderflow(freshranges) ==> NoUnderflow(v)
    ensures WellFormed(freshranges) ==> WellFormed(v) && Apart(v) && IdsOf(v) == IdsOf(freshranges)
  {
    v := freshranges;
    var i := 0;
    while i < |v|
      invariant i <= |v| <= |freshranges|
      invariant NoUnderflow(freshranges) ==> NoUnderflow(v)
      invariant WellFormed(freshranges) ==> WellFormed(v) && Apart(v[..i]) && IdsOf(v) == IdsOf(freshranges)
      decreases |v|, |v| - i
    {
      var rangeCurrent := v[i];
      match Position(v[..i], rangeCurrent) {
        case Some(j) =>
          ghost var before := v;
          v := v[j := MergeRanges(v[j], rangeCurrent)];
          v := v[..i] + v[i + 1..];
          if NoUnderflow(freshranges) {
            MergeKeepsNoUnderflow(before, i, j);
          }
          if WellFormed(freshranges) {
            MergeKeepsWellFormed(before, i, j);
            MergeKeepsApart(before, i, j);
            MergeKeepsIds(before, i, j);
          }
          i := j + 1;
        case None =>
          if WellFormed(freshranges) {
            NoTouchKeepsApart(v, i);
          }
          i := i + 1;
      }
    }
    assert v[..i] == v;
  }

  /** The vector after one merge: `v[j]` replaced by the merge, `v[i]` removed. */
  function AfterMerge(v: seq<Range>, i: nat, j: nat): (w: seq<Range>)
    requires j < i < |v|
    ensures |w| == |v| - 1
  {
    var merged := v[j := MergeRanges(v[j], v[i])];
    merged[..i] + merged[i + 1..]
  }

  lemma MergeKeepsNoUnderflow(v: seq<Range>, i: nat, j: nat)
    requires j < i < |v| && NoUnderflow(v)
    ensures NoUnderflow(AfterMerge(v, i, j))
  {
    var w := AfterMerge(v, i, j);
    forall k | 0 <= k < |w| ensures w[k].start <= w[k].end + 1 {
      if k != j {
        assert w[k] == v[if k < i then k else k + 1];
      }
    }
  }

  lemma NoTouchKeepsApart(v: seq<Range>, i: nat)
    requires i < |v| && Apart(v[..i])
    requires forall k :: 0 <= k < i ==> !Touch(v[..i][k], v[i])
    ensures Apart(v[..i + 1])
  {
    var p := v[..i + 1];
    forall a, b | 0 <= a < b < i + 1 ensures !Touch(p[a], p[b]) {
      if b < i {
        assert p[a] == v[..i][a] && p[b] == v[..i][b];
      } else {
        assert v[..i][a] == v[a];
      }
    }
  }

  lemma MergeKeepsWellFormed(v: seq<Range>, i: nat, j: nat)
    requires j < i < |v| && WellFormed(v)
    ensures WellFormed(AfterMerge(v, i, j))
  {
    var w := AfterMerge(v, i, j);
    forall k | 0 <= k < |w| ensures w[k].start <= w[k].end {
      if k != j {
        assert w[k] == v[if k < i then k else k + 1];
      }
    }
  }

  /** A merge into the first touching range keeps the ranges up to it apart. */
  lemma MergeKeepsApart(v: seq<Range>, i: nat, j: nat)
    requires j < i < |v| && WellFormed(v) && Apart(v[..i])
    requires Touch(v[j], v[i]) && forall k :: 0 <= k < j ==> !Touch(v[..i][k], v[i])
    ensures Apart(AfterMerge(v, i, j)[..j + 1])
  {
    var p := AfterMerge(v, i, j)[..j + 1];
    var m := MergeRanges(v[j], v[i]);
    assert p == v[..j] + [m];
    forall a, b | 0 <= a < b < j + 1 ensures !Touch(p[a], p[b]) {
      assert v[..i][a] == v[a] && p[a] == v[a];
      if b < j {
        assert v[..i][b] == v[b] && p[b] == v[b];
      } else {
        assert v[..i][j] == v[j];
        MergeApart(v[a], v[j], v[i]);
      }
    }
  }

  /** A range apart from two touching ranges is apart from their merge. */
  lemma MergeApart(a: Range, b: Range, c: Range)
    requires a.start <= a.end && b.start <= b.end && c.start <= c.end
    requires !Touch(a, b) && !Touch(a, c) && Touch(b, c)
    ensures !Touch(a, MergeRanges(b, c))
  {
    TouchIff(a, b);
    TouchIff(a, c);
    TouchIff(b, c);
    TouchIff(a, MergeRanges(b, c));
  }

  /** A merge of touching ranges keeps the ids unchanged. */
  lemma MergeKeepsIds(v: seq<Range>, i: nat, j: nat)
    requires j < i < |v| && WellFormed(v) && Touch(v[j], v[i])
    ensures IdsOf(AfterMerge(v, i, j)) == IdsOf(v)
  {
    MergeIsUnion(v[j], v[i]);
    IdsOfAround(v, i);
    IdsOfAround(v[..i], j);
    AfterMergeIds(v, i, j);
    assert v[..i][..j] == v[..j] && v[..i][j + 1..] == v[j + 1..i];
  }

  /** The ids after a merge, piece by piece. */
  lemma AfterMergeIds(v: seq<Range>, i: nat, j: nat)
    requires j < i < |v|
    ensures IdsOf(AfterMerge(v, i, j))
      == IdsOf(v[..j]) + Ids(MergeRanges(v[j], v[i])) + IdsOf(v[j + 1..i]) + IdsOf(v[i + 1..])
  {
    var merged := v[j := MergeRanges(v[j], v[i])];
    IdsOfAround(merged[..i], j);
    assert merged[..i][..j] == v[..j];
    assert merged[..i][j + 1..] == v[j + 1..i];
    assert merged[i + 1..] == v[i + 1..];
    IdsOfAppend(merged[..i], merged[i + 1..]);
  }

  /** The ids of a sequence: those before position `k`, at it, and after it. */
  lemma IdsOfAround(s: seq<Range>, k: nat)
    requires k < |s|
    ensures IdsOf(s) == IdsOf(s[..k]) + Ids(s[k]) + IdsOf(s[k + 1..])
  {
    assert s == s[..k] + s[k..];
    IdsOfAppend(s[..k], s[k..]);
    assert s[k..][1..] == s[k + 1..];
  }

  lemma IdsOfOne(r: Range)
    ensures IdsOf([r]) == Ids(r)
  {
    assert [r][1..] == [];
  }

  lemma {:induction false} IdsOfAppend(a: seq<Range>, b: seq<Range>)
    ensures IdsOf(a + b) == IdsOf(a) + IdsOf(b)
  {
    if a == [] {
      assert a + b == b;
    } else {
      assert (a + b)[1..] == a[1..] + b;
      IdsOfAppend(a[1..], b);
    }
  }

  /** An id is among the ranges' ids exactly when some range contains it. */
  lemma {:induction false} IdsOfContains(v: seq<Range>, x: int)
    ensures x in IdsOf(v) <==> exists k :: 0 <= k < |v| && Contains(v[k], x)
  {
    if v != [] {
      IdsOfContains(v[1..], x);
      if exists k :: 0 <= k < |v| && Contains(v[k], x) {
        var k :| 0 <= k < |v| && Contains(v[k], x);
        if k > 0 {
          assert Contains(v[1..][k - 1], x);
        }
      }
      if exists k :: 0 <= k < |v[1..]| && Contains(v[1..][k], x) {
        var k :| 0 <= k < |v[1..]| && Contains(v[1..][k], x);
        assert Contains(v[k + 1], x);
      }
    }
  }

  /** `end + 1 - start` of each range, added up. */
  function SumLengths(v: seq<Range>): int {
    if v == [] then 0 else (v[0].end + 1 - v[0].start) + SumLengths(v[1..])
  }

  /** A range that does not underflow holds `end + 1 - start` ids. */
  lemma {:induction false} IdsCard(r: Range)
    requires r.start <= r.end + 1
    ensures |Ids(r)| == r.end + 1 - r.start
    decreases r.end + 1 - r.start
  {
    if r.start <= r.end {
      var next := Range(r.start + 1, r.end);
      IdsCard(next);
      forall x ensures x in Ids(r) <==> x == r.start || x in Ids(next) {
        assert Contains(r, x) <==> x == r.start || Contains(next, x);
      }
      assert Ids(r) == Ids(next) + {r.start};
      assert r.start !in Ids(next);
    } else {
      assert Ids(r) == {};
    }
  }

  /** Over ranges that hold something and are apart, the lengths add up to the
      number of distinct ids. */
  lemma {:induction false} SumLengthsCard(v: seq<Range>)
    requires WellFormed(v) && Apart(v)
    ensures SumLengths(v) == |IdsOf(v)|
  {
    if v != [] {
      var rest := v[1..];
      assert Apart(rest) by {
        forall a, b | 0 <= a < b < |rest| ensures !Touch(rest[a], rest[b]) {
          assert rest[a] == v[a + 1] && rest[b] == v[b + 1];
        }
      }
      SumLengthsCard(rest);
      IdsCard(v[0]);
      forall x | x in Ids(v[0]) ensures x !in IdsOf(rest) {
        IdsOfContains(rest, x);
        if x in IdsOf(rest) {
          var k :| 0 <= k < |rest| && Contains(rest[k], x);
          assert rest[k] == v[k + 1];
          TouchIff(v[0], v[k + 1]);
        }
      }
      assert Ids(v[0]) * IdsOf(rest) == {};
    }
  }

  /** `num_fresh_ids`: dedup the ranges in place, then add up their lengths. */
  method NumFreshIds(freshranges: seq<Range>) returns (deduped: seq<Range>, n: nat)
    requires NoUnderflow(freshranges)
    ensures WellFormed(freshranges) ==> n == |IdsOf(freshranges)|
    ensures WellFormed(freshranges) ==> IdsOf(deduped) == IdsOf(freshranges)
  {
    deduped := DedupRanges(freshranges);
    SumLengthsNat(deduped);
    n := SumLengths(deduped);
    if WellFormed(freshranges) {
      SumLengthsCard(deduped);
    }
  }

  lemma {:induction false} SumLengthsNat(v: seq<Range>)
    requires NoUnderflow(v)
    ensures SumLengths(v) >= 0
  {
    if v != [] {
      SumLengthsNat(v[1..]);
    }
  }

  /** `freshranges.iter().any(|r| r.contains(x))`. */
  function AnyContains(freshranges: seq<Range>, x: int): (b: bool) {
    if freshranges == [] then false else Contains(freshranges[0], x) || AnyContains(freshranges[1..], x)
  }

  lemma {:induction false} AnyContainsIds(freshranges: seq<Range>, x: int)
    ensures AnyContains(freshranges, x) <==> x in IdsOf(freshranges)
  {
    if freshranges != [] {
      AnyContainsIds(freshranges[1..], x);
    }
  }

  /** `available_and_fresh`: how many of the available ids (with repeats) some
      range contains. */
  function AvailableAndFresh(availables: seq<nat>, freshranges: seq<Range>): (n: nat)
    ensures n <= |availables|
  {
    if availables == [] then 0
    else
      var last := |availables| - 1;
      AvailableAndFresh(availables[..last], freshranges) + (if AnyContains(freshranges, availables[last]) then 1 else 0)
  }

  /** The positions of the available ids that are fresh. */
  function FreshPositions(availables: seq<nat>, freshranges: seq<Range>, n: nat): set<nat>
    requires n <= |availables|
  {
    set k | 0 <= k < n && availables[k] in IdsOf(freshranges)
  }

  /** One more position adds itself when its id is fresh. */
  lemma FreshPositionsStep(availables: seq<nat>, freshranges: seq<Range>, n: nat)
    requires n < |availables|
    ensures FreshPositions(availables, freshranges, n + 1)
      == FreshPositions(availables, freshranges, n) + (if availables[n] in IdsOf(freshranges) then {n} else {})
  {
  }

  /** The positions below `n` look only at the first `n` ids. */
  lemma FreshPositionsPrefix(availables: seq<nat>, freshranges: seq<Range>, n: nat)
    requires n <= |availables|
    ensures FreshPositions(availables[..n], freshranges, n) == FreshPositions(availables, freshranges, n)
  {
    forall k | 0 <= k < n ensures availables[..n][k] == availables[k] {
    }
  }

  /** Part 1 counts the positions whose id lies in some range. */
  lemma {:induction false} AvailableAndFreshCounts(availables: seq<nat>, freshranges: seq<Range>)
    ensures AvailableAndFresh(availables, freshranges) == |FreshPositions(availables, freshranges, |availables|)|
  {
    if availables == [] {
      assert FreshPositions(availables, freshranges, 0) == {};
    } else {
      var last := |availables| - 1;
      AvailableAndFreshCounts(availables[..last], freshranges);
      AnyContainsIds(freshranges, availables[last]);
      FreshPositionsPrefix(availables, freshranges, last);
      FreshPositionsStep(availables, freshranges, last);
    }
  }

  /** Part 1 depends only on the ids the ranges hold, so it gives the same
      answer before and after `dedup_ranges`. */
  lemma AvailableAndFreshByIds(availables: seq<nat>, r1: seq<Range>, r2: seq<Range>)
    requires IdsOf(r1) == IdsOf(r2)
    ensures AvailableAndFresh(availables, r1) == AvailableAndFresh(availables, r2)
  {
    AvailableAndFreshCounts(availables, r1);
    AvailableAndFreshCounts(availables, r2);
  }

  /** One line `a-b` of the first block: the first two pieces split at `-`. */
  function ParseRange(line: String): (r: Option<Range>)
    ensures r.Some? <==> (|Split(line, '-')| >= 2
      && ParseU64(Split(line, '-')[0]).Some? && ParseU64(Split(line, '-')[1]).Some?)
    ensures r.Some? ==> r.value == Range(ParseU64(Split(line, '-')[0]).value, ParseU64(Split(line, '-')[1]).value)
    ensures r.Some? ==> r.value.start < U64_LIMIT && r.value.end < U64_LIMIT
  {
    var rangesep := Split(line, '-');
    if |rangesep| < 2 then None
    else match (ParseU64(rangesep[0]), ParseU64(rangesep[1]))
      case (Some(start), Some(end)) => Some(Range(start, end))
      case _ => None
  }

  /** A range written as `start-end` parses back when both bounds fit in a
      `u64`. */
  lemma ParseRangeFormat(r: Range)
    requires r.start < U64_LIMIT && r.end < U64_LIMIT
    ensures ParseRange(NatToText(r.start) + "-" + NatToText(r.end)) == Some(r)
  {
    DashedSplits(NatToText(r.start), NatToText(r.end));
    ParseU64ToText(r.start);
    ParseU64ToText(r.end);
  }

  /** `parse_fresh`: the ranges of the block before the first blank line. */
  function ParseFresh(input: String): Option<seq<Range>> {
    MapAll(Lines(SplitOn(input, "\n\n")[0]), ParseRange)
  }

  /** `parse_availables`: one id per line of the block after the first blank
      line; without a blank line the program panics. */
  function ParseAvailables(input: String): (r: Option<seq<nat>>)
    ensures |SplitOn(input, "\n\n")| < 2 ==> r.None?
  {
    var sep := SplitOn(input, "\n\n");
    if |sep| < 2 then None else MapAll(Lines(sep[1]), ParseU64)
  }
}
