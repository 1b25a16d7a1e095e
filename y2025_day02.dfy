/** 2025 day 2: product ids that are a block of decimal digits written twice
    (part 1) or at least twice (part 2), collected from inclusive id ranges. */
module Y2025Day02 {
  import opened Wrappers
  import opened Positional
  import opened Decimal
  import opened Text
  import opened SeqUtil

  /** `b` written `n` times in a row. */
  function Repeat(b: seq<nat>, n: nat): (r: seq<nat>)
    ensures |r| == n * |b|
  {
    if n == 0 then [] else b + Repeat(b, n - 1)
  }

  lemma {:induction false} RepeatDigits(b: seq<nat>, n: nat)
    requires DigitsBelow(b, 10)
    ensures DigitsBelow(Repeat(b, n), 10)
  {
    if n > 0 {
      RepeatDigits(b, n - 1);
    }
  }

  lemma {:induction false} RepeatHead(b: seq<nat>, n: nat)
    requires n >= 1 && |b| >= 1
    ensures Repeat(b, n)[0] == b[0]
  {
  }

  /** The value `repeat_num(num, n)` computes: `num`'s decimal text written `n` times. */
  function RepeatValue(num: nat, n: nat): nat {
    ValueOf(Repeat(Digits(num), n))
  }

  /** `repeat_num`: the loop adds `num * 10^(i * digits)` for i in 0..n; it needs
      `num >= 1` because of `ilog10`. */
  method RepeatNum(num: nat, n: nat) returns (ret: nat)
    requires num >= 1
    ensures ret == RepeatValue(num, n)
  {
    var subnumDigits := ILog10(num) + 1;
    ghost var b := Digits(num);
    assert subnumDigits == |b|;
    ret := 0;
    for i := 0 to n
      invariant ret == ValueOf(Repeat(b, i))
    {
      ValueInAppend(b, Repeat(b, i), 10);
      ret := ret + num * Pow10(i * subnumDigits);
      ValueOfDigits(num);
    }
  }

  /** `repeats_twice`: the number has an even digit count and its upper half
      equals its lower half. `ilog10` panics on 0. */
  function RepeatsTwice(num: nat): bool
    requires num >= 1
  {
    var numDigits := ILog10(num) + 1;
    if numDigits % 2 == 0 then
      var higherHalf := num / Pow10(numDigits / 2);
      var lowerHalf := num % Pow10(numDigits / 2);
      higherHalf == lowerHalf
    else false
  }

  /** Part 1 as the puzzle states it: the decimal text has even length and its
      two halves are equal. */
  lemma RepeatsTwiceIff(num: nat)
    requires num >= 1
    ensures RepeatsTwice(num) <==> |Digits(num)| % 2 == 0 && Digits(num)[..|Digits(num)| / 2] == Digits(num)[|Digits(num)| / 2..]
  {
    var d := Digits(num);
    var k := |d| / 2;
    if |d| % 2 == 0 {
      HalvesEqual(num, d, k);
    }
  }

  lemma HalvesEqual(num: nat, d: seq<nat>, k: nat)
    requires num >= 1 && d == Digits(num) && |d| == 2 * k
    ensures (num / Pow10(k) == num % Pow10(k)) <==> d[..k] == d[k..]
  {
    DigitsHighLow(num, k);
    var hi, lo := num / Pow10(k), num % Pow10(k);
    assert Digits(hi) == d[..k];
    assert lo == ValueOf(d[k..]);
    ValueOfDigits(hi);
    if hi == lo {
      ValueInInjective(d[..k], d[k..], 10);
    }
  }

  /** `repeats_atleast_twice`: some prefix of i + 1 digits, i < digits / 2,
      repeated digits / (i + 1) times gives the number back. */
  function RepeatsAtLeastTwice(num: nat): bool
    requires num >= 1
  {
    AnyPrefixRepeats(num, 0)
  }

  /** The candidate of index i: the leading i + 1 digits repeated digits / (i + 1)
      times give `num`. */
  predicate PrefixRepeats(num: nat, i: nat)
    requires num >= 1
  {
    var numDigits := ILog10(num) + 1;
    i < numDigits / 2 && RepeatValue(num / Pow10(numDigits - i - 1), numDigits / (i + 1)) == num
  }

  /** `any` over the candidates i, i + 1, …, digits / 2 - 1. */
  function AnyPrefixRepeats(num: nat, i: nat): bool
    requires num >= 1
    decreases NumDigits(num) - i
  {
    if i >= NumDigits(num) / 2 then false
    else PrefixRepeats(num, i) || AnyPrefixRepeats(num, i + 1)
  }

  lemma {:induction false} AnyPrefixRepeatsIff(num: nat, i: nat)
    requires num >= 1
    ensures AnyPrefixRepeats(num, i) <==> exists j :: i <= j && PrefixRepeats(num, j)
    decreases NumDigits(num) - i
  {
    if i < NumDigits(num) / 2 {
      AnyPrefixRepeatsIff(num, i + 1);
      if exists j :: i <= j && PrefixRepeats(num, j) {
        var j :| i <= j && PrefixRepeats(num, j);
        assert j == i || (i + 1 <= j && PrefixRepeats(num, j));
      }
    }
  }

  /** Part 2 as the puzzle states it: the decimal text is a block written at least twice. */
  lemma RepeatsAtLeastTwiceIff(num: nat)
    requires num >= 1
    ensures RepeatsAtLeastTwice(num) <==> exists b, m :: m >= 2 && Digits(num) == Repeat(b, m)
  {
    AnyPrefixRepeatsIff(num, 0);
    if RepeatsAtLeastTwice(num) {
      var i :| PrefixRepeats(num, i);
      CandidateIsBlock(num, i);
    }
    if exists b, m :: m >= 2 && Digits(num) == Repeat(b, m) {
      var b, m :| m >= 2 && Digits(num) == Repeat(b, m);
      BlockIsCandidate(num, b, m);
    }
  }

  lemma CandidateIsBlock(num: nat, i: nat)
    requires num >= 1 && PrefixRepeats(num, i)
    ensures var nd := NumDigits(num); nd / (i + 1) >= 2 && Digits(num) == Repeat(Digits(num)[..i + 1], nd / (i + 1))
  {
    var d := Digits(num);
    var nd := |d|;
    assert ILog10(num) + 1 == nd;
    assert i < nd / 2;
    var prefix := num / Pow10(nd - i - 1);
    var m := nd / (i + 1);
    assert RepeatValue(prefix, m) == num;
    DigitsHighLow(num, nd - i - 1);
    var b := Digits(prefix);
    assert b == d[..i + 1];
    TwoCopiesFit(nd, i);
    DigitsLeading(num);
    RepeatDigits(b, m);
    RepeatHead(b, m);
    var r := Repeat(b, m);
    assert ValueOf(r) == num;
    DigitsOfValue(r);
  }

  lemma BlockIsCandidate(num: nat, b: seq<nat>, m: nat)
    requires num >= 1 && m >= 2 && Digits(num) == Repeat(b, m)
    ensures |b| >= 1 && PrefixRepeats(num, |b| - 1)
  {
    var k := BlockShape(num, b, m);
    PrefixRepeatsIntro(num, k, m);
  }

  /** Digits that are `m` copies of a block of `k` digits: the block count,
      room for two halves, and the leading block repeated giving the number back. */
  lemma BlockShape(num: nat, b: seq<nat>, m: nat) returns (k: nat)
    requires m >= 2 && Digits(num) == Repeat(b, m)
    ensures k == |b| && 1 <= k && k - 1 < NumDigits(num) / 2 && NumDigits(num) / k == m
    ensures RepeatValue(num / Pow10(NumDigits(num) - k), m) == num
  {
    var d := Digits(num);
    k := |b|;
    assert |d| == m * k;
    BlockCount(m, k);
    BlockPrefix(num, b, m);
  }

  /** The leading block of the digits, repeated, gives the number back. */
  lemma BlockPrefix(num: nat, b: seq<nat>, m: nat)
    requires m >= 2 && |b| >= 1 && Digits(num) == Repeat(b, m)
    ensures |b| <= NumDigits(num) && RepeatValue(num / Pow10(NumDigits(num) - |b|), m) == num
  {
    var d := Digits(num);
    var k, nd := |b|, NumDigits(num);
    assert d[..k] == b;
    DigitsHighLow(num, nd - k);
    assert nd - (nd - k) == k;
    ValueOfDigits(num);
    DivNat(num, Pow10(nd - k));
    RepeatValueOf(num / Pow10(nd - k), b, m);
  }

  lemma RepeatValueOf(p: nat, b: seq<nat>, m: nat)
    requires Digits(p) == b
    ensures RepeatValue(p, m) == ValueOf(Repeat(b, m))
  {
  }

  /** `m` blocks of `k` digits: the block count and room for two halves. */
  lemma BlockCount(m: nat, k: nat)
    requires m >= 2 && m * k >= 1
    ensures k >= 1 && (m * k) / k == m && k - 1 < (m * k) / 2
  {
    MulLe(2, m, k);
    DivModUnique(m, 0, k);
  }

  lemma PrefixRepeatsIntro(num: nat, k: nat, m: nat)
    requires num >= 1 && 1 <= k && k - 1 < NumDigits(num) / 2 && NumDigits(num) / k == m
    requires RepeatValue(num / Pow10(NumDigits(num) - k), m) == num
    ensures PrefixRepeats(num, k - 1)
  {
    var nd := NumDigits(num);
    assert ILog10(num) + 1 == nd;
    assert nd - (k - 1) - 1 == nd - k;
  }

  lemma TwoCopiesFit(nd: nat, i: nat)
    requires i < nd / 2
    ensures nd / (i + 1) >= 2
  {
    DivAtLeast(nd, i + 1, 2);
  }

  lemma DivAtLeast(n: nat, k: nat, m: nat)
    requires k >= 1 && k * m <= n
    ensures n / k >= m
  {
    if n / k < m {
      assert n == (n / k) * k + n % k;
      MulLe(n / k + 1, m, k);
    }
  }

  /** A number written as a block twice is also a block written at least twice. */
  lemma TwiceIsAtLeastTwice(num: nat)
    requires num >= 1 && RepeatsTwice(num)
    ensures RepeatsAtLeastTwice(num)
  {
    RepeatsTwiceIff(num);
    var d := Digits(num);
    var b := d[..|d| / 2];
    assert d == b + b;
    RepeatTwo(b);
    assert 2 >= 2 && Digits(num) == Repeat(b, 2);
    RepeatsAtLeastTwiceIff(num);
  }

  lemma RepeatTwo(b: seq<nat>)
    ensures Repeat(b, 2) == b + b
  {
    assert Repeat(b, 1) == b + [];
    assert b + [] == b;
  }

  function IsInvalid(num: nat, part2: bool): bool
    requires num >= 1
  {
    if part2 then RepeatsAtLeastTwice(num) else RepeatsTwice(num)
  }

  /** The ids of `start..=end` that the part's predicate flags, in ascending
      order. The range must not contain 0, on which `ilog10` panics. */
  function InvalidIds(start: nat, end: nat, part2: bool): (r: seq<int>)
    requires start >= 1 || end < start
  {
    RangeFilter(start, end, (x: int) => x >= 1 && IsInvalid(x, part2))
  }

  function InvalidIdsPart1(start: nat, end: nat): seq<int>
    requires start >= 1 || end < start
  {
    InvalidIds(start, end, false)
  }

  function InvalidIdsPart2(start: nat, end: nat): seq<int>
    requires start >= 1 || end < start
  {
    InvalidIds(start, end, true)
  }

  /** Part 1 lists, in ascending order, exactly the ids of the range that are a
      block written twice; part 2 those that are a block written at least twice. */
  lemma InvalidIdsExact(start: nat, end: nat)
    requires start >= 1 || end < start
    ensures forall i, j :: 0 <= i < j < |InvalidIdsPart1(start, end)| ==> InvalidIdsPart1(start, end)[i] < InvalidIdsPart1(start, end)[j]
    ensures forall i, j :: 0 <= i < j < |InvalidIdsPart2(start, end)| ==> InvalidIdsPart2(start, end)[i] < InvalidIdsPart2(start, end)[j]
    ensures forall x: nat :: x in InvalidIdsPart1(start, end) <==> start <= x <= end && RepeatsTwice(x)
    ensures forall x: nat :: x in InvalidIdsPart2(start, end) <==> start <= x <= end && RepeatsAtLeastTwice(x)
  {
  }

  /** Every id flagged in part 1 is flagged in part 2. */
  lemma Part1IdsInPart2(start: nat, end: nat, x: nat)
    requires start >= 1 || end < start
    requires x in InvalidIdsPart1(start, end)
    ensures x in InvalidIdsPart2(start, end)
  {
    InvalidIdsExact(start, end);
    TwiceIsAtLeastTwice(x);
  }

  /** An inclusive id range `start..=end`. */
  datatype IdRange = IdRange(start: nat, end: nat)

  /** One `start-end` piece: the texts before the first and second '-' must
      parse, and a piece without '-' makes the second `next().unwrap()` panic. */
  function ParseRange(piece: String): (r: Option<IdRange>)
    ensures r.Some? <==> (|Split(piece, '-')| >= 2
      && ParseU64(Split(piece, '-')[0]).Some? && ParseU64(Split(piece, '-')[1]).Some?)
    ensures r.Some? ==> (r.value.start == ParseU64(Split(piece, '-')[0]).value
      && r.value.end == ParseU64(Split(piece, '-')[1]).value)
    ensures r.Some? ==> r.value.start < U64_LIMIT && r.value.end < U64_LIMIT
  {
    var parts := Split(piece, '-');
    if |parts| < 2 then None
    else match (ParseU64(parts[0]), ParseU64(parts[1]))
      case (Some(a), Some(b)) => Some(IdRange(a, b))
      case _ => None
  }

  /** `parse`: drop every line feed, then one range per ','-separated piece. */
  /** The comma-separated pieces of the input, line feeds removed. */
  function Pieces(input: String): seq<String> {
    Split(Remove(input, '\n'), ',')
  }

  function Parse(input: String): (r: Option<seq<IdRange>>)
    ensures r.Some? <==> forall k :: 0 <= k < |Pieces(input)| ==> ParseRange(Pieces(input)[k]).Some?
    ensures r.Some? ==> (|r.value| == |Pieces(input)|
      && forall k :: 0 <= k < |r.value| ==> ParseRange(Pieces(input)[k]) == Some(r.value[k]))
  {
    MapAll(Pieces(input), ParseRange)
  }

  function Format(r: IdRange): String {
    NatToText(r.start) + "-" + NatToText(r.end)
  }

  /** A formatted range holds neither separator of the input and parses back
      when both bounds fit in a `u64`. */
  lemma FormatFacts(r: IdRange)
    requires r.start < U64_LIMIT && r.end < U64_LIMIT
    ensures ',' !in Format(r) && '\n' !in Format(r)
    ensures ParseRange(Format(r)) == Some(r)
  {
    var a, b := NatToText(r.start), NatToText(r.end);
    assert Format(r) == a + "-" + b;
    DashedAvoids(a, b, ',');
    DashedAvoids(a, b, '\n');
    DashedSplits(a, b);
    ParseU64ToText(r.start);
    ParseU64ToText(r.end);
  }
}
