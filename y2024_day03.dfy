/** Corrupted memory: sum the products of the well-formed `mul(a,b)`
    instructions, and in part 2 only those enabled by `do()` / `don't()`. */
module Y2024Day03 {
  import opened Wrappers
  import opened Text
  import opened SeqUtil

  /** `str::parse::<i64>`: a decimal integer in the 64-bit signed range. */
  function ParseI64(s: String): (r: Option<int>)
    ensures r.Some? <==> ParseInt(s).Some? && -0x8000_0000_0000_0000 <= ParseInt(s).value < 0x8000_0000_0000_0000
    ensures r.Some? ==> -0x8000_0000_0000_0000 <= r.value < 0x8000_0000_0000_0000 && ParseInt(s) == r
  {
    match ParseInt(s)
    case Some(v) => if -0x8000_0000_0000_0000 <= v < 0x8000_0000_0000_0000 then Some(v) else None
    case None => None
  }

  /** `multiply`: split at the first comma and multiply the two numbers; None
      when there is no comma or either side does not parse. */
  function Multiply(factors: String): (r: Option<int>)
    ensures ',' !in factors ==> r.None?
    ensures r.Some? ==>
      exists i ::
        && 0 <= i < |factors| && factors[i] == ','
        && ParseI64(factors[..i]).Some? && ParseI64(factors[i + 1..]).Some?
        && r.value == ParseI64(factors[..i]).value * ParseI64(factors[i + 1..]).value
  {
    match Find(factors, ",")
    case None => NoMatchAbsent(factors, ',');
      None
    case Some(comma) =>
      match (ParseI64(factors[..comma]), ParseI64(factors[comma + 1..]))
      case (Some(a), Some(b)) => Some(a * b)
      case _ => None
  }

  /** A character that occurs is found. */
  lemma NoMatchAbsent(s: String, c: char)
    requires Find(s, [c]).None?
    ensures c !in s
  {
    forall i | 0 <= i < |s| ensures s[i] != c {
      assert !MatchAt(s, [c], i);
      assert s[i..i + 1] == [s[i]];
    }
  }

  /** Two numbers written with a comma multiply. */
  lemma MultiplyFormat(a: nat, b: nat)
    requires a < 0x8000_0000_0000_0000 && b < 0x8000_0000_0000_0000
    ensures Multiply(NatToText(a) + "," + NatToText(b)) == Some(a * b)
  {
    var s := NatToText(a) + "," + NatToText(b);
    DigitsAvoid(NatToText(a), ',');
    assert s[..|NatToText(a)|] == NatToText(a);
    FirstCharAt(s, ',', |NatToText(a)|);
    assert s[..|NatToText(a)|] == NatToText(a);
    assert s[|NatToText(a)| + 1..] == NatToText(b);
    ParseNatToText(a);
    ParseNatToText(b);
  }

  // Part 1

  /** What one `mul(` contributes, given the text after it: the product up to
      the next `)`, unless there is none, another `mul(` comes first, or the
      factors do not parse. */
  function Gain(rest: String): int {
    var nextMul := Find(rest, "mul(");
    var closing := Find(rest, ")");
    if closing.None? || (nextMul.Some? && nextMul.value < closing.value) then 0
    else Multiply(rest[..closing.value]).UnwrapOr(0)
  }

  /** The sum `parse_part1` computes: one gain per `mul(`, searched from the
      left; text without `mul(` sums to 0. */
  function Part1Sum(s: String): (r: int)
    ensures (forall i :: 0 <= i ==> !MatchAt(s, "mul(", i)) ==> r == 0
    decreases |s|
  {
    match Find(s, "mul(")
    case None => 0
    case Some(m) => Gain(s[m + 4..]) + Part1Sum(s[m + 4..])
  }

  /** `parse_part1`: repeatedly cut the text up to and including the next
      `mul(` and add the product that follows it. */
  method ParsePart1(input: String) returns (summed: int)
    ensures summed == Part1Sum(input)
  {
    summed := 0;
    var text := input;
    while true
      invariant summed + Part1Sum(text) == Part1Sum(input)
      decreases |text|
    {
      var mul := Find(text, "mul(");
      if mul.None? {
        break;
      }
      text := text[mul.value + 4..];
      var nextMul := Find(text, "mul(");
      var closing := Find(text, ")");
      if closing.None? || (nextMul.Some? && nextMul.value < closing.value) {
        continue;
      }
      match Multiply(text[..closing.value]) {
        case Some(product) =>
          summed := summed + product;
        case None =>
          continue;
      }
    }
  }

  /** The text after `mul(` in a lone instruction holds no `mul(`. */
  lemma NoMulAfter(a: nat, b: nat)
    ensures forall i :: 0 <= i ==> !MatchAt(NatToText(a) + "," + NatToText(b) + ")", "mul(", i)
  {
    var x, y := NatToText(a), NatToText(b);
    var rest := x + "," + y + ")";
    DigitsAvoid(x, 'm');
    DigitsAvoid(y, 'm');
    forall i | 0 <= i < |rest| ensures rest[i] != 'm' {
      if i < |x| {
        assert rest[i] == x[i];
      } else if |x| < i < |x| + 1 + |y| {
        assert rest[i] == y[i - |x| - 1];
      }
    }
    forall i | 0 <= i ensures !MatchAt(rest, "mul(", i) {
      if i + 4 <= |rest| {
        assert rest[i..i + 4][0] == rest[i];
      }
    }
  }

  /** The factors of a lone instruction end at its `)`. */
  lemma ClosingAfter(a: nat, b: nat)
    ensures Find(NatToText(a) + "," + NatToText(b) + ")", ")") == Some(|NatToText(a) + "," + NatToText(b)|)
  {
    var factors := NatToText(a) + "," + NatToText(b);
    var rest := factors + ")";
    DigitsAvoid(NatToText(a), ')');
    DigitsAvoid(NatToText(b), ')');
    assert rest[..|factors|] == factors;
    FirstCharAt(rest, ')', |factors|);
  }

  /** A leading `mul(` is the first one found. */
  lemma Part1Leading(rest: String)
    ensures Part1Sum("mul(" + rest) == Gain(rest) + Part1Sum(rest)
  {
    var s := "mul(" + rest;
    assert s[..4] == "mul(";
    assert s[4..] == rest;
    FindAt(s, "mul(", 0);
  }

  /** The text after the `mul(` of a lone instruction gains its product and
      holds no further instruction. */
  lemma SingleRest(a: nat, b: nat)
    requires a < 0x8000_0000_0000_0000 && b < 0x8000_0000_0000_0000
    ensures Gain(NatToText(a) + "," + NatToText(b) + ")") == a * b
    ensures Part1Sum(NatToText(a) + "," + NatToText(b) + ")") == 0
  {
    var factors := NatToText(a) + "," + NatToText(b);
    var rest := factors + ")";
    NoMulAfter(a, b);
    ClosingAfter(a, b);
    assert rest[..|factors|] == factors;
    MultiplyFormat(a, b);
  }

  /** A lone well-formed instruction sums to its product. */
  lemma Part1Single(a: nat, b: nat)
    requires a < 0x8000_0000_0000_0000 && b < 0x8000_0000_0000_0000
    ensures Part1Sum("mul(" + NatToText(a) + "," + NatToText(b) + ")") == a * b
  {
    var rest := NatToText(a) + "," + NatToText(b) + ")";
    assert "mul(" + NatToText(a) + "," + NatToText(b) + ")" == "mul(" + rest;
    Part1Leading(rest);
    SingleRest(a, b);
  }

  // Part 2

  /** A segment after `do()`, cut at its first `don't()`. */
  function Enabled(segment: String): String {
    match Find(segment, "don't()")
    case Some(i) => segment[..i]
    case None => segment
  }

  /** The part 1 sums of the enabled segments. */
  function SegmentSums(segments: seq<String>): (r: seq<int>)
    ensures |r| == |segments|
    ensures forall k :: 0 <= k < |r| ==> r[k] == Part1Sum(Enabled(segments[k]))
  {
    seq(|segments|, k requires 0 <= k < |segments| => Part1Sum(Enabled(segments[k])))
  }

  /** The sum `parse_part2` computes. */
  function Part2Sum(input: String): int {
    Sum(SegmentSums(SplitOn(input, "do()")))
  }

  /** `parse_part2`: split at `do()`, cut each piece at `don't()` and add the
      part 1 sums. */
  method ParsePart2(input: String) returns (summed: int)
    ensures summed == Part2Sum(input)
  {
    summed := 0;
    var segments := SplitOn(input, "do()");
    var sums := SegmentSums(segments);
    for k := 0 to |segments|
      invariant summed == Sum(sums[..k])
    {
      var doCalc := segments[k];
      var part: int;
      match Find(doCalc, "don't()") {
        case Some(index) =>
          part := ParsePart1(doCalc[..index]);
        case None =>
          part := ParsePart1(doCalc);
      }
      SumPrefix(sums, k);
      summed := summed + part;
    }
    assert sums[..|segments|] == sums;
  }

  /** Without `do()` and `don't()` both parts agree. */
  lemma Part2WithoutSwitches(input: String)
    requires Find(input, "do()").None? && Find(input, "don't()").None?
    ensures Part2Sum(input) == Part1Sum(input)
  {
    assert SplitOn(input, "do()") == [input];
    assert Enabled(input) == input;
    var sums := SegmentSums([input]);
    assert sums == [Part1Sum(input)];
    assert sums[..0] == [];
    assert Sum(sums) == Sum(sums[..0]) + sums[0];
  }
}
