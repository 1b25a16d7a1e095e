/** 2025 day 3: battery banks of single-digit joltages; the maximal joltage of a
    bank is the largest number formed by n of its digits kept in order. */
module Y2025Day03 {
  import opened Wrappers
  import opened Positional
  import opened Decimal
  import opened Text

  /** `pos` holds the leftmost maximum of `bank[lo..hi]`. */
  predicate LeftmostMaxAt(bank: seq<nat>, lo: nat, hi: nat, pos: nat) {
    lo <= pos < hi <= |bank|
    && (forall k :: lo <= k < hi ==> bank[k] <= bank[pos])
    && (forall k :: lo <= k < pos ==> bank[k] < bank[pos])
  }

  /** `bank[lo..hi].iter().rev().max_by_key(..)` on a non-empty window, as a
      position in `bank`: `max_by_key` keeps the last of equal maxima in
      iteration order, and the reversed iteration visits `bank[lo]` last, so
      `bank[lo]` wins every tie. */
  function RevMaxIn(bank: seq<nat>, lo: nat, hi: nat): (i: nat)
    requires lo < hi <= |bank|
    ensures lo <= i < hi
    decreases hi - lo
  {
    if hi - lo == 1 then lo
    else
      var j := RevMaxIn(bank, lo + 1, hi);
      if bank[lo] >= bank[j] then lo else j
  }

  /** Reversing before `max_by_key` finds the leftmost maximum. */
  lemma {:induction false} RevMaxInLeftmost(bank: seq<nat>, lo: nat, hi: nat)
    requires lo < hi <= |bank|
    ensures LeftmostMaxAt(bank, lo, hi, RevMaxIn(bank, lo, hi))
    decreases hi - lo
  {
    if hi - lo > 1 {
      RevMaxInLeftmost(bank, lo + 1, hi);
    }
  }

  /** There is only one leftmost maximum. */
  lemma LeftmostMaxUnique(bank: seq<nat>, lo: nat, hi: nat, p: nat, q: nat)
    requires LeftmostMaxAt(bank, lo, hi, p) && LeftmostMaxAt(bank, lo, hi, q)
    ensures p == q
  {
    assert bank[p] == bank[q];
  }

  /** The maximum `max_by_key` finds in the reversed `bank[lo..hi]` is the
      leftmost one. */
  lemma RevMaxInIs(bank: seq<nat>, lo: nat, hi: nat, j: nat)
    requires lo < hi <= |bank| && LeftmostMaxAt(bank, lo, hi, j)
    ensures RevMaxIn(bank, lo, hi) == j
  {
    RevMaxInLeftmost(bank, lo, hi);
    LeftmostMaxUnique(bank, lo, hi, j, RevMaxIn(bank, lo, hi));
  }

  /** A window position: `bank[skip..]` cut to at most `take` elements. */
  function WindowEnd(bank: seq<nat>, skip: nat, take: nat): nat {
    if skip + take <= |bank| then skip + take else |bank|
  }

  /** `findmax`: enumerate, skip, take, reverse and take the last maximum. The
      window must not be empty (`unwrap`). */
  function FindMax(bank: seq<nat>, skip: nat, take: nat): (r: (nat, nat))
    requires skip < |bank| && take >= 1
  {
    var i := RevMaxIn(bank, skip, WindowEnd(bank, skip, take));
    (i, bank[i])
  }

  /** `findmax` returns the leftmost maximum of the window and its value. */
  lemma FindMaxLeftmost(bank: seq<nat>, skip: nat, take: nat)
    requires skip < |bank| && take >= 1
    ensures LeftmostMaxAt(bank, skip, WindowEnd(bank, skip, take), FindMax(bank, skip, take).0)
    ensures FindMax(bank, skip, take).1 == bank[FindMax(bank, skip, take).0]
  {
    RevMaxInLeftmost(bank, skip, WindowEnd(bank, skip, take));
  }

  predicate AllIn(ps: seq<nat>, lo: nat, hi: nat) {
    forall k :: 0 <= k < |ps| ==> lo <= ps[k] < hi
  }

  /** The positions the loop of `maxjoltage_part2` chooses for the remaining `n`
      digits, starting at `skip`: each window leaves `n - 1` elements after it. */
  function Greedy(bank: seq<nat>, skip: nat, n: nat): (ps: seq<nat>)
    requires skip + n <= |bank|
    ensures |ps| == n && AllIn(ps, skip, |bank|)
    decreases n
  {
    if n == 0 then []
    else
      var take := |bank| - (n - 1) - skip;
      var p := FindMax(bank, skip, take).0;
      FindMaxLeftmost(bank, skip, take);
      var rest := Greedy(bank, p + 1, n - 1);
      assert forall k :: 0 <= k < |rest| ==> p + 1 <= rest[k];
      [p] + rest
  }

  /** The digits at the given positions. */
  function Pick(bank: seq<nat>, ps: seq<nat>): (r: seq<nat>)
    requires AllIn(ps, 0, |bank|)
    ensures |r| == |ps|
    decreases |ps|
  {
    if ps == [] then [] else [bank[ps[0]]] + Pick(bank, ps[1..])
  }

  /** A digit of the given weight: `10^digit * maxval`. */
  function Weighted(v: nat, digit: nat): nat {
    v * Pow10(digit)
  }

  /** The number the loop of `maxjoltage_part2` adds up over the remaining `n`
      digits from `skip` on: each chosen digit weighted by 10^digit. */
  function GreedyJoltage(bank: seq<nat>, skip: nat, n: nat): nat
    requires skip + n <= |bank|
    decreases n
  {
    if n == 0 then 0
    else
      var take := |bank| - (n - 1) - skip;
      var (p, v) := FindMax(bank, skip, take);
      FindMaxLeftmost(bank, skip, take);
      Weighted(v, n - 1) + GreedyJoltage(bank, p + 1, n - 1)
  }

  /** One round of the greedy choice, with `findmax` seen only through its
      contract: `(p, v)` is what it returns for the window that leaves `m - 1`
      places after it. */
  lemma GreedyJoltageStep(bank: seq<nat>, skip: nat, m: nat, p: nat, v: nat)
    requires 1 <= m && skip + m <= |bank|
    requires (p, v) == FindMax(bank, skip, |bank| - (m - 1) - skip)
    ensures LeftmostMaxAt(bank, skip, |bank| - (m - 1), p) && v == bank[p]
    ensures GreedyJoltage(bank, skip, m) == Weighted(v, m - 1) + GreedyJoltage(bank, p + 1, m - 1)
  {
    FindMaxLeftmost(bank, skip, |bank| - (m - 1) - skip);
  }

  /** `maxjoltage_part2`: the loop picks one digit per remaining position and
      adds it with weight 10^digit. The bank needs at least `n` batteries, or
      `bank.len() - digit - skip` underflows. */
  method MaxJoltagePart2(bank: seq<nat>, n: nat) returns (maxjoltage: nat)
    requires n <= |bank|
    ensures maxjoltage == ValueOf(Pick(bank, Greedy(bank, 0, n)))
  {
    var skip := 0;
    maxjoltage := 0;
    ghost var total := GreedyJoltage(bank, skip, n);
    for i := 0 to n
      invariant skip + (n - i) <= |bank|
      invariant maxjoltage + GreedyJoltage(bank, skip, n - i) == total
    {
      var digit := n - i - 1;
      var take := |bank| - digit - skip;
      var (maxposNew, maxval) := FindMax(bank, skip, take);
      LoopStep(bank, skip, digit + 1, maxjoltage, total, maxposNew, maxval);
      skip := maxposNew + 1;
      maxjoltage := maxjoltage + Weighted(maxval, digit);
    }
    GreedyJoltageIsPick(bank, 0, n);
  }

  /** One turn of the loop of `maxjoltage_part2` keeps its running sum on track. */
  lemma LoopStep(bank: seq<nat>, skip: nat, m: nat, acc: nat, total: nat, p: nat, v: nat)
    requires 1 <= m && skip + m <= |bank|
    requires (p, v) == FindMax(bank, skip, |bank| - (m - 1) - skip)
    requires acc + GreedyJoltage(bank, skip, m) == total
    ensures p + 1 + (m - 1) <= |bank|
    ensures acc + Weighted(v, m - 1) + GreedyJoltage(bank, p + 1, m - 1) == total
  {
    GreedyJoltageStep(bank, skip, m, p, v);
  }

  /** The sum of the loop is the number read from the chosen positions. */
  lemma {:induction false} GreedyJoltageIsPick(bank: seq<nat>, skip: nat, n: nat)
    requires skip + n <= |bank|
    ensures GreedyJoltage(bank, skip, n) == ValueOf(Pick(bank, Greedy(bank, skip, n)))
    decreases n
  {
    if n > 0 {
      var (p, v) := FindMax(bank, skip, |bank| - (n - 1) - skip);
      GreedyJoltageStep(bank, skip, n, p, v);
      var rest := Greedy(bank, p + 1, n - 1);
      assert Greedy(bank, skip, n) == [p] + rest;
      assert ([p] + rest)[1..] == rest;
      GreedyJoltageIsPick(bank, p + 1, n - 1);
      ValueOfCons(bank[p], Pick(bank, rest));
    }
  }

  /** The greedy choice reads a number below 10^n. */
  lemma JoltageBound(bank: seq<nat>, n: nat)
    requires n <= |bank| && DigitsBelow(bank, 10)
    ensures GreedyJoltage(bank, 0, n) < Pow10(n)
  {
    GreedyJoltageIsPick(bank, 0, n);
    PickDigits(bank, Greedy(bank, 0, n));
    ValueInBound(Pick(bank, Greedy(bank, 0, n)), 10);
  }

  lemma {:induction false} PickDigits(bank: seq<nat>, ps: seq<nat>)
    requires AllIn(ps, 0, |bank|) && DigitsBelow(bank, 10)
    ensures DigitsBelow(Pick(bank, ps), 10)
    decreases |ps|
  {
    if ps != [] {
      PickDigits(bank, ps[1..]);
    }
  }

  /** Strictly increasing positions from `lo` on within the bank. */
  predicate Increasing(ps: seq<nat>, lo: nat, len: nat) {
    AllIn(ps, lo, len) && (forall k, l :: 0 <= k < l < |ps| ==> ps[k] < ps[l])
  }

  lemma {:induction false} GreedyIncreasing(bank: seq<nat>, skip: nat, n: nat)
    requires skip + n <= |bank|
    ensures Increasing(Greedy(bank, skip, n), skip, |bank|)
    decreases n
  {
    if n > 0 {
      var p := FindMax(bank, skip, |bank| - (n - 1) - skip).0;
      FindMaxLeftmost(bank, skip, |bank| - (n - 1) - skip);
      GreedyIncreasing(bank, p + 1, n - 1);
    }
  }

  lemma ValueOfCons(d: nat, rest: seq<nat>)
    ensures ValueOf([d] + rest) == d * Pow10(|rest|) + ValueOf(rest)
  {
    ValueInAppend([d], rest, 10);
    assert [d][..0] == [];
  }

  /** The greedy choice is optimal: no n digits of the bank taken in order
      (strictly increasing positions) form a larger number. */
  lemma {:induction false} GreedyOptimal(bank: seq<nat>, skip: nat, n: nat, ps: seq<nat>)
    requires skip + n <= |bank| && DigitsBelow(bank, 10)
    requires |ps| == n && Increasing(ps, skip, |bank|)
    ensures ValueOf(Pick(bank, ps)) <= GreedyJoltage(bank, skip, n)
    decreases n, 1
  {
    if n > 0 {
      var (p, v) := FindMax(bank, skip, |bank| - (n - 1) - skip);
      GreedyJoltageStep(bank, skip, n, p, v);
      var y := GreedyJoltage(bank, p + 1, n - 1);
      if bank[ps[0]] < v {
        SmallerLead(bank, ps, v, y);
      } else {
        GreedyOptimalSameLead(bank, skip, n, ps, p, v);
      }
    }
  }

  /** A choice that starts at a digit no smaller than the greedy one starts at
      it or after it, and then the rest of the greedy choice is optimal. */
  lemma {:induction false} GreedyOptimalSameLead(bank: seq<nat>, skip: nat, n: nat, ps: seq<nat>, p: nat, v: nat)
    requires 1 <= n && skip + n <= |bank| && DigitsBelow(bank, 10)
    requires |ps| == n && Increasing(ps, skip, |bank|)
    requires LeftmostMaxAt(bank, skip, |bank| - (n - 1), p) && v == bank[p] && bank[ps[0]] >= v
    ensures p + 1 + (n - 1) <= |bank|
    ensures ValueOf(Pick(bank, ps)) <= Weighted(v, n - 1) + GreedyJoltage(bank, p + 1, n - 1)
    decreases n, 0
  {
    IncreasingRoom(ps, skip, |bank|);
    assert ps[0] >= p;
    IncreasingTail(ps, skip, |bank|, p + 1);
    GreedyOptimal(bank, p + 1, n - 1, ps[1..]);
    EqualLead(bank, ps, v, GreedyJoltage(bank, p + 1, n - 1));
  }

  /** Digits read behind a smaller leading digit lose. */
  lemma SmallerLead(bank: seq<nat>, ps: seq<nat>, b: nat, y: nat)
    requires |ps| >= 1 && AllIn(ps, 0, |bank|) && DigitsBelow(bank, 10) && bank[ps[0]] < b
    ensures ValueOf(Pick(bank, ps)) <= Weighted(b, |ps| - 1) + y
  {
    var rest := Pick(bank, ps[1..]);
    ValueOfCons(bank[ps[0]], rest);
    PickDigits(bank, ps[1..]);
    ValueInBound(rest, 10);
    LeadingDigitWins(bank[ps[0]], b, ValueOf(rest), y, |ps| - 1);
  }

  /** Behind an equal leading digit, the rest decides. */
  lemma EqualLead(bank: seq<nat>, ps: seq<nat>, b: nat, y: nat)
    requires |ps| >= 1 && AllIn(ps, 0, |bank|) && bank[ps[0]] == b
    requires ValueOf(Pick(bank, ps[1..])) <= y
    ensures ValueOf(Pick(bank, ps)) <= Weighted(b, |ps| - 1) + y
  {
    ValueOfCons(b, Pick(bank, ps[1..]));
  }

  /** A smaller leading digit loses whatever follows it. */
  lemma LeadingDigitWins(a: nat, b: nat, x: nat, y: nat, k: nat)
    requires a < b && x < Pow10(k)
    ensures a * Pow10(k) + x <= Weighted(b, k) + y
  {
    var w := Pow10(k);
    MulLe(a + 1, b, w);
    assert (a + 1) * w == a * w + w;
  }

  lemma IncreasingTail(ps: seq<nat>, lo: nat, len: nat, lo': nat)
    requires |ps| >= 1 && Increasing(ps, lo, len) && lo' <= ps[0] + 1
    ensures Increasing(ps[1..], lo', len)
  {
    forall k | 0 <= k < |ps| - 1 ensures lo' <= ps[1..][k] < len {
      assert ps[0] < ps[k + 1];
    }
  }

  lemma IncreasingRoom(ps: seq<nat>, lo: nat, len: nat)
    requires |ps| >= 1 && Increasing(ps, lo, len)
    ensures ps[0] + |ps| <= len
  {
    var k := |ps| - 1;
    IncreasingSpread(ps, lo, len, k);
  }

  lemma {:induction false} IncreasingSpread(ps: seq<nat>, lo: nat, len: nat, k: nat)
    requires k < |ps| && Increasing(ps, lo, len)
    ensures ps[0] + k <= ps[k]
  {
    if k > 0 {
      IncreasingSpread(ps, lo, len, k - 1);
    }
  }

  /** `maxjoltage_part1`: the last maximum of the reversed, enumerated first
      `len - 1` batteries; its enumeration index `ri` maps back with
      `len - 1 - ri`, one past the battery found; then the last maximum of the
      reversed rest from there. */
  function MaxJoltagePart1(bank: seq<nat>): nat
    requires |bank| >= 2
  {
    var len := |bank|;
    var k := RevMaxIn(bank, 0, len - 1);
    var ri := len - 2 - k;
    var maxVal := bank[k];
    var maxPos := len - 1 - ri;
    var secondVal := bank[RevMaxIn(bank, maxPos, len)];
    maxVal * 10 + secondVal
  }

  /** `findmax` over a window that ends at `hi` finds its leftmost maximum. */
  lemma FindMaxIs(bank: seq<nat>, lo: nat, hi: nat, j: nat)
    requires hi <= |bank| && LeftmostMaxAt(bank, lo, hi, j)
    ensures FindMax(bank, lo, hi - lo) == (j, bank[j])
  {
    RevMaxInIs(bank, lo, hi, j);
  }

  /** `maxjoltage_part1` reads the leftmost maximum of all but the last
      battery, then the maximum after it. */
  lemma Part1Value(bank: seq<nat>, p: nat, q: nat)
    requires |bank| >= 2
    requires LeftmostMaxAt(bank, 0, |bank| - 1, p) && LeftmostMaxAt(bank, p + 1, |bank|, q)
    ensures MaxJoltagePart1(bank) == bank[p] * 10 + bank[q]
  {
    RevMaxInIs(bank, 0, |bank| - 1, p);
    RevMaxInIs(bank, p + 1, |bank|, q);
  }

  /** The greedy choice of the last digit reads the leftmost maximum of the rest. */
  lemma GreedyOneValue(bank: seq<nat>, skip: nat, q: nat)
    requires skip < |bank| && LeftmostMaxAt(bank, skip, |bank|, q)
    ensures GreedyJoltage(bank, skip, 1) == bank[q]
  {
    FindMaxIs(bank, skip, |bank|, q);
    GreedyJoltageStep(bank, skip, 1, q, bank[q]);
  }

  /** The greedy choice of two digits reads the same two positions. */
  lemma GreedyTwoValue(bank: seq<nat>, p: nat, q: nat)
    requires |bank| >= 2
    requires LeftmostMaxAt(bank, 0, |bank| - 1, p) && LeftmostMaxAt(bank, p + 1, |bank|, q)
    ensures GreedyJoltage(bank, 0, 2) == bank[p] * 10 + bank[q]
  {
    FindMaxIs(bank, 0, |bank| - 1, p);
    GreedyJoltageStep(bank, 0, 2, p, bank[p]);
    GreedyOneValue(bank, p + 1, q);
  }

  /** Every bank of two or more batteries has both leftmost maxima. */
  lemma Part1Positions(bank: seq<nat>) returns (p: nat, q: nat)
    requires |bank| >= 2
    ensures LeftmostMaxAt(bank, 0, |bank| - 1, p) && LeftmostMaxAt(bank, p + 1, |bank|, q)
  {
    var len := |bank|;
    FindMaxLeftmost(bank, 0, len - 1);
    p := FindMax(bank, 0, len - 1).0;
    FindMaxLeftmost(bank, p + 1, len - p - 1);
    q := FindMax(bank, p + 1, len - p - 1).0;
  }

  /** Part 1 is the greedy choice of two digits, which `main` also computes. */
  lemma Part1IsGreedyTwo(bank: seq<nat>)
    requires |bank| >= 2
    ensures MaxJoltagePart1(bank) == GreedyJoltage(bank, 0, 2)
  {
    var p, q := Part1Positions(bank);
    Part1Value(bank, p, q);
    GreedyTwoValue(bank, p, q);
  }

  function DigitOpt(c: char): Option<nat> {
    if IsDigit(c) then Some(DigitOf(c)) else None
  }

  /** `parse`: one bank per line, one digit per character; any other character
      makes `to_digit(10).unwrap()` panic. The `take_while(line != "\n")` keeps
      every line, since no line holds a line feed. */
  function Parse(input: String): (r: Option<seq<seq<nat>>>)
    ensures r.Some? <==> forall i :: 0 <= i < |Lines(input)| ==> AllDigits(Lines(input)[i])
    ensures r.Some? ==> |r.value| == |Lines(input)|
    ensures r.Some? ==> forall i :: 0 <= i < |r.value| ==> r.value[i] == DigitsOfText(Lines(input)[i])
  {
    var lines := Lines(input);
    var parseLine := (line: String) => MapAll(line, DigitOpt);
    var r := MapAll(lines, parseLine);
    assert forall i :: 0 <= i < |lines| ==> (parseLine(lines[i]).Some? <==> AllDigits(lines[i]));
    assert r.Some? ==> forall i :: 0 <= i < |lines| ==> r.value[i] == DigitsOfText(lines[i]);
    r
  }
}
