/** Bridge repair: a calibration equation holds when some choice of the
    operators `+`, `*` (and, in part 2, decimal concatenation `||`),
    applied left to right, turns its numbers into its test value. */
module Y2024Day07 {
  import opened Wrappers
  import opened Text
  import opened Positional
  import opened Decimal

  /** One calibration equation. */
  datatype Line = Line(testValue: nat, numbers: seq<nat>)

  // Parsing

  /** `Line::from_str`: the test value before the first `:` and the
      whitespace-separated numbers after it; None where the source panics (no
      colon, or a part that is not a `u64`). */
  function ParseLine(s: String): (r: Option<Line>)
    ensures r.Some? ==> exists i ::
      && 0 <= i < |s| && s[i] == ':'
      && ParseU64(s[..i]) == Some(r.value.testValue)
      && MapAll(SplitWhitespace(s[i + 1..]), ParseU64) == Some(r.value.numbers)
  {
    match Find(s, ":")
    case None => None
    case Some(i) =>
      assert s[i..i + 1] == [s[i]];
      match (ParseU64(s[..i]), MapAll(SplitWhitespace(s[i + 1..]), ParseU64))
      case (Some(t), Some(ns)) => Some(Line(t, ns))
      case _ => None
  }

  /** `parse_input`: one equation per line. */
  function ParseInput(input: String): (r: Option<seq<Line>>)
    ensures r.Some? ==> |r.value| == |Lines(input)|
    ensures r.Some? ==> forall k :: 0 <= k < |r.value| ==> ParseLine(Lines(input)[k]) == Some(r.value[k])
  {
    MapAll(Lines(input), ParseLine)
  }

  /** An equation as the puzzle writes it: `test: n1 n2 …`. */
  function ShowLine(line: Line): String {
    NatToText(line.testValue) + ":" + Spaced(Texts(line.numbers))
  }

  /** Numbers that fit in a `u64`. */
  predicate InU64(line: Line) {
    line.testValue < U64_LIMIT && forall k :: 0 <= k < |line.numbers| ==> line.numbers[k] < U64_LIMIT
  }

  /** Every equation in range that is written out parses back. */
  lemma ParseShowLine(line: Line)
    requires InU64(line)
    ensures ParseLine(ShowLine(line)) == Some(line)
  {
    var head := NatToText(line.testValue);
    var s := ShowLine(line);
    DigitsAvoid(head, ':');
    assert s[..|head|] == head;
    FirstCharAt(s, ':', |head|);
    assert s[|head| + 1..] == Spaced(Texts(line.numbers));
    ParseNatToText(line.testValue);
    ParseNumbersBack(line.numbers);
  }

  // Operator combinations

  /** `convert_base` as a value: `num` written in base `base` with exactly
      `width` digits, most significant first (higher digits are dropped). */
  function BaseDigits(num: nat, base: nat, width: nat): (r: seq<nat>)
    requires base >= 1
    ensures |r| == width
    decreases width
  {
    if width == 0 then [] else BaseDigits(num / base, base, width - 1) + [num % base]
  }

  lemma BaseDigitsSnoc(num: nat, base: nat, width: nat)
    requires base >= 1 && width >= 1
    ensures BaseDigits(num, base, width) == BaseDigits(num / base, base, width - 1) + [num % base]
  {
  }

  /** Every digit is below the base. */
  lemma {:induction false} BaseDigitsBelow(num: nat, base: nat, width: nat)
    requires base >= 1
    ensures DigitsBelow(BaseDigits(num, base, width), base)
    decreases width
  {
    if width > 0 {
      BaseDigitsBelow(num / base, base, width - 1);
    }
  }

  /** A number below `b * p` has a quotient by `b` below `p`. */
  lemma QuotientBelow(n: nat, b: nat, p: nat)
    requires b >= 1 && n < b * p
    ensures n / b < p
  {
    DivModParts(n, b);
    if n / b >= p {
      MulLe(p, n / b, b);
    }
  }

  /** A last digit adds to the value of the digits before it, shifted once. */
  lemma ValueInSnoc(ds: seq<nat>, d: nat, base: nat)
    ensures ValueIn(ds + [d], base) == ValueIn(ds, base) * base + d
  {
    assert (ds + [d])[..|ds|] == ds;
  }

  /** The last digit splits off a number that needs one digit less. */
  lemma DigitStep(num: nat, base: nat, width: nat)
    requires base >= 1 && width >= 1 && num < Pow(base, width)
    ensures num / base < Pow(base, width - 1)
    ensures num == (num / base) * base + num % base
  {
    DivModParts(num, base);
    assert Pow(base, width) == base * Pow(base, width - 1);
    QuotientBelow(num, base, Pow(base, width - 1));
  }

  /** A number below `base^width` is read back from its digits. */
  lemma {:induction false} BaseDigitsValue(num: nat, base: nat, width: nat)
    requires base >= 1 && num < Pow(base, width)
    ensures ValueIn(BaseDigits(num, base, width), base) == num
    decreases width
  {
    if width > 0 {
      var q: nat, r: nat := num / base, num % base;
      DigitStep(num, base, width);
      BaseDigitsValue(q, base, width - 1);
      var ds := BaseDigits(q, base, width - 1);
      ValueInSnoc(ds, r, base);
      BaseDigitsSnoc(num, base, width);
    } else {
      assert num == 0;
    }
  }

  /** Digits below the base are the digits of their value. */
  lemma BaseDigitsOfValue(ds: seq<nat>, base: nat)
    requires base >= 1 && DigitsBelow(ds, base)
    ensures BaseDigits(ValueIn(ds, base), base, |ds|) == ds
  {
    ValueInBound(ds, base);
    BaseDigitsValue(ValueIn(ds, base), base, |ds|);
    BaseDigitsBelow(ValueIn(ds, base), base, |ds|);
    ValueInInjective(BaseDigits(ValueIn(ds, base), base, |ds|), ds, base);
  }

  /** One step of the division loop needs one digit less for the quotient. */
  lemma StepBound(n: nat, base: nat, k: nat)
    requires base >= 2 && k >= 1 && n < Pow(base, k)
    ensures 0 <= n / base < Pow(base, k - 1) && 0 <= n % base < base
    ensures k == 1 ==> n / base == 0
  {
    DivModParts(n, base);
    assert Pow(base, k) == base * Pow(base, k - 1);
    QuotientBelow(n, base, Pow(base, k - 1));
  }

  function Zeros(n: nat): (r: seq<nat>)
    ensures |r| == n && forall k :: 0 <= k < n ==> r[k] == 0
  {
    seq(n, _ => 0)
  }

  /** Zero is written with zeros only. */
  lemma {:induction false} BaseDigitsZero(base: nat, width: nat)
    requires base >= 1
    ensures BaseDigits(0, base, width) == Zeros(width)
  {
    if width > 0 {
      BaseDigitsZero(base, width - 1);
      assert Zeros(width) == Zeros(width - 1) + [0];
    }
  }

  /** Writing the digit just before the written part extends it. */
  lemma WriteDigit(cut: nat, low: seq<nat>, r: nat)
    requires cut >= 1
    ensures (Zeros(cut) + low)[cut - 1 := r] == Zeros(cut - 1) + ([r] + low)
  {
  }

  /** `convert_base`: fill the digits of `num` from the right by repeated
      division until the quotient is zero. The loop writes at
      `width - 1 - digit`, so it needs at least one digit of room and `num`
      must fit in `width` digits. */
  method ConvertBase(num: nat, base: nat, width: nat) returns (converted: seq<nat>)
    requires base >= 2 && width >= 1 && num < Pow(base, width)
    ensures converted == BaseDigits(num, base, width)
  {
    converted := Zeros(width);
    var n: nat := num;
    var quotient: nat := 1;
    var digit: nat := 0;
    ghost var low: seq<nat> := [];
    assert converted == Zeros(width) + low;
    assert BaseDigits(n, base, width) + low == BaseDigits(num, base, width);
    while quotient > 0
      invariant digit <= width && |low| == digit
      invariant digit == 0 ==> quotient == 1
      invariant digit > 0 ==> quotient == n
      invariant quotient > 0 ==> digit < width
      invariant n < Pow(base, width - digit)
      invariant converted == Zeros(width - digit) + low
      invariant BaseDigits(n, base, width - digit) + low == BaseDigits(num, base, width)
      decreases width - digit
    {
      StepBound(n, base, width - digit);
      BaseDigitsSnoc(n, base, width - digit);
      quotient := n / base;
      var remainder: nat := n % base;
      WriteDigit(width - digit, low, remainder);
      converted := converted[width - 1 - digit := remainder];
      low := [remainder] + low;
      digit := digit + 1;
      n := quotient;
    }
    assert n == 0;
    BaseDigitsZero(base, width - digit);
  }

  // Evaluation

  /** `concat_decimals`: the digits of `b` written after those of `a`
      (`ilog10` panics on a zero `b`). */
  function ConcatDecimals(a: nat, b: nat): nat
    requires b >= 1
  {
    a * Pow10(NumDigits(b)) + b
  }

  /** Concatenation writes the digits of the second number after those of
      the first; a zero first number vanishes. */
  lemma ConcatDigits(a: nat, b: nat)
    requires b >= 1
    ensures a >= 1 ==> Digits(ConcatDecimals(a, b)) == Digits(a) + Digits(b)
    ensures a == 0 ==> ConcatDecimals(a, b) == b
  {
    if a >= 1 {
      ValueInAppend(Digits(a), Digits(b), 10);
      ValueOfDigits(a);
      ValueOfDigits(b);
      DigitsLeading(a);
      var ds := Digits(a) + Digits(b);
      assert ValueOf(ds) == ConcatDecimals(a, b);
      DigitsOfValue(ds);
    }
  }

  /** The operator codes of `solvable`: 0 adds, 1 multiplies, 2 concatenates. */
  function Apply(acc: nat, op: nat, x: nat): (r: nat)
    requires op < 3 && (op == 2 ==> x >= 1)
    ensures op == 2 && acc >= 1 ==> Digits(r) == Digits(acc) + Digits(x)
    ensures op == 2 && acc == 0 ==> r == x
  {
    if op == 0 then acc + x
    else if op == 1 then acc * x
    else ConcatDigits(acc, x); ConcatDecimals(acc, x)
  }

  /** Operators fit the numbers: one between each neighbouring pair, each a
      known code, and no concatenation of a zero. */
  predicate Fits(numbers: seq<nat>, ops: seq<nat>) {
    && |numbers| == |ops| + 1
    && DigitsBelow(ops, 3)
    && forall k :: 0 <= k < |ops| && ops[k] == 2 ==> numbers[k + 1] >= 1
  }

  /** The fold of `solvable`: start from the first number and apply each
      operator with the next number, left to right. */
  function Eval(numbers: seq<nat>, ops: seq<nat>): nat
    requires Fits(numbers, ops)
  {
    if ops == [] then numbers[0]
    else
      var m := |ops| - 1;
      assert Fits(numbers[..m + 1], ops[..m]);
      Apply(Eval(numbers[..m + 1], ops[..m]), ops[m], numbers[m + 1])
  }

  /** Additions alone sum the numbers; with only multiplications, the result
      is their product. */
  lemma {:induction false} EvalUniform(numbers: seq<nat>, ops: seq<nat>)
    requires Fits(numbers, ops)
    ensures (forall k :: 0 <= k < |ops| ==> ops[k] == 0) ==> Eval(numbers, ops) == SumOf(numbers)
    ensures (forall k :: 0 <= k < |ops| ==> ops[k] == 1) ==> Eval(numbers, ops) == ProductOf(numbers)
  {
    if ops != [] {
      var m := |ops| - 1;
      EvalUniform(numbers[..m + 1], ops[..m]);
      assert numbers[..m + 1][..m + 1] == numbers[..m + 1];
    }
  }

  function SumOf(ns: seq<nat>): nat {
    if ns == [] then 0 else SumOf(ns[..|ns| - 1]) + ns[|ns| - 1]
  }

  function ProductOf(ns: seq<nat>): nat {
    if ns == [] then 1 else ProductOf(ns[..|ns| - 1]) * ns[|ns| - 1]
  }

  // Solvability

  /** The numbers after the first are positive, so that any of them can be
      concatenated. */
  predicate Concatenable(numbers: seq<nat>) {
    forall k :: 1 <= k < |numbers| ==> numbers[k] >= 1
  }

  function NumOps(withConcat: bool): nat {
    if withConcat then 3 else 2
  }

  /** What `solvable` may be asked: at least one number, and positive numbers
      to concatenate. */
  predicate Askable(line: Line, withConcat: bool) {
    |line.numbers| >= 1 && (withConcat ==> Concatenable(line.numbers))
  }

  /** Operators that turn the numbers into the test value. */
  predicate Solves(line: Line, ops: seq<nat>) {
    Fits(line.numbers, ops) && Eval(line.numbers, ops) == line.testValue
  }

  /** Operators of the kinds allowed, one per gap. */
  predicate Allowed(line: Line, withConcat: bool, ops: seq<nat>) {
    |ops| == |line.numbers| - 1 && DigitsBelow(ops, NumOps(withConcat))
  }

  /** The operator choice numbered `i`. */
  function Choice(line: Line, withConcat: bool, i: nat): (ops: seq<nat>)
    requires Askable(line, withConcat)
    ensures Fits(line.numbers, ops) && Allowed(line, withConcat, ops)
  {
    BaseDigitsBelow(i, NumOps(withConcat), |line.numbers| - 1);
    BaseDigits(i, NumOps(withConcat), |line.numbers| - 1)
  }

  /** Every allowed operator sequence is numbered below `NumOps^(len-1)`. */
  lemma ChoiceOf(line: Line, withConcat: bool, ops: seq<nat>)
    requires Askable(line, withConcat) && Allowed(line, withConcat, ops)
    ensures ValueIn(ops, NumOps(withConcat)) < Pow(NumOps(withConcat), |line.numbers| - 1)
    ensures Choice(line, withConcat, ValueIn(ops, NumOps(withConcat))) == ops
  {
    ValueInBound(ops, NumOps(withConcat));
    BaseDigitsOfValue(ops, NumOps(withConcat));
  }

  /** Whether one of the first `n` operator choices solves the equation. */
  function AnyOf(line: Line, withConcat: bool, n: nat): bool
    requires Askable(line, withConcat)
  {
    n > 0 && (AnyOf(line, withConcat, n - 1) || Solves(line, Choice(line, withConcat, n - 1)))
  }

  /** `solvable`: try all `NumOps^(len-1)` operator choices. */
  function Solvable(line: Line, withConcat: bool): bool
    requires Askable(line, withConcat)
  {
    AnyOf(line, withConcat, Pow(NumOps(withConcat), |line.numbers| - 1))
  }

  lemma {:induction false} AnyOfIff(line: Line, withConcat: bool, n: nat)
    requires Askable(line, withConcat)
    ensures AnyOf(line, withConcat, n) <==>
      exists i :: 0 <= i < n && Solves(line, Choice(line, withConcat, i))
  {
    if n > 0 {
      AnyOfIff(line, withConcat, n - 1);
      if Solves(line, Choice(line, withConcat, n - 1)) {
        assert 0 <= n - 1 < n;
      }
      if exists i :: 0 <= i < n && Solves(line, Choice(line, withConcat, i)) {
        var i :| 0 <= i < n && Solves(line, Choice(line, withConcat, i));
        assert i < n - 1 || i == n - 1;
      }
    }
  }

  /** Allowed operators that solve the equation are among those tried. */
  lemma SolvableOf(line: Line, withConcat: bool, ops: seq<nat>)
    requires Askable(line, withConcat) && Allowed(line, withConcat, ops) && Solves(line, ops)
    ensures Solvable(line, withConcat)
  {
    var b, w := NumOps(withConcat), |line.numbers| - 1;
    ChoiceOf(line, withConcat, ops);
    AnyOfIff(line, withConcat, Pow(b, w));
    assert Solves(line, Choice(line, withConcat, ValueIn(ops, b)));
  }

  /** An equation is solvable exactly when some operators of the allowed
      kinds, one per gap, make the numbers evaluate to the test value. */
  lemma SolvableIff(line: Line, withConcat: bool)
    requires Askable(line, withConcat)
    ensures Solvable(line, withConcat) <==> exists ops :: Allowed(line, withConcat, ops) && Solves(line, ops)
  {
    forall ops | Allowed(line, withConcat, ops) && Solves(line, ops) ensures Solvable(line, withConcat) {
      SolvableOf(line, withConcat, ops);
    }
    if Solvable(line, withConcat) {
      AnyOfIff(line, withConcat, Pow(NumOps(withConcat), |line.numbers| - 1));
      var i :| 0 <= i < Pow(NumOps(withConcat), |line.numbers| - 1) && Solves(line, Choice(line, withConcat, i));
      assert Allowed(line, withConcat, Choice(line, withConcat, i));
    }
  }

  /** Concatenation only adds solutions: part 1's equations are part 2's too. */
  lemma SolvableMonotone(line: Line)
    requires Askable(line, true)
    ensures Solvable(line, false) ==> Solvable(line, true)
  {
    SolvableIff(line, false);
    SolvableIff(line, true);
  }

  /** With a single number there is nothing to choose: the equation holds
      exactly when that number is the test value. */
  lemma SolvableSingle(line: Line, withConcat: bool)
    requires Askable(line, withConcat) && |line.numbers| == 1
    ensures Solvable(line, withConcat) <==> line.numbers[0] == line.testValue
  {
    assert Pow(NumOps(withConcat), 0) == 1;
    assert AnyOf(line, withConcat, 0) == false;
  }

  // The operator width as written

  /** Rust's `ilog`: the floor of the base-`b` logarithm. */
  function ILog(b: nat, n: nat): nat
    requires b >= 2 && n >= 1
  {
    if n < b then 0 else QuotientSmaller(n, b); 1 + ILog(b, n / b)
  }

  /** Dividing a number of at least `b` by `b` leaves a smaller positive one. */
  lemma QuotientSmaller(n: nat, b: nat)
    requires b >= 2 && n >= b
    ensures 1 <= n / b < n
  {
    var q := n / b;
    DivModParts(n, b);
    if q >= n {
      MulLe(n, q, b);
      MulLe(2, b, n);
    }
  }

  /** Dividing by `b` moves a number one power down. */
  lemma QuotientBounds(b: nat, n: nat, p: nat)
    requires b >= 2 && b * p <= n < b * (b * p)
    ensures p <= n / b < b * p
  {
    var q := n / b;
    DivModParts(n, b);
    if q < p {
      MulLe(q + 1, p, b);
    }
    if q >= b * p {
      MulLe(b * p, q, b);
    }
  }

  /** `ilog` is `k` between the `k`th and the next power. */
  lemma {:induction false} ILogOfBounds(b: nat, n: nat, k: nat)
    requires b >= 2 && Pow(b, k) <= n < Pow(b, k + 1)
    ensures ILog(b, n) == k
    decreases k
  {
    if k > 0 {
      PowMonotone(b, 1, k);
      assert Pow(b, 1) == b;
      var p := Pow(b, k - 1);
      assert Pow(b, k) == b * p;
      assert Pow(b, k + 1) == b * (b * p);
      QuotientBounds(b, n, p);
      ILogOfBounds(b, n / b, k - 1);
    }
  }

  /** `bin_width` as `solvable` computes it: `ilog(numops^(len-1) + 1)`. */
  function BinWidth(numOps: nat, len: nat): nat
    requires numOps >= 2 && len >= 1
  {
    ILog(numOps, Pow(numOps, len - 1) + 1)
  }

  /** For two or more numbers the computed width is the number of gaps. */
  lemma BinWidthGaps(numOps: nat, len: nat)
    requires numOps >= 2 && len >= 2
    ensures BinWidth(numOps, len) == len - 1
  {
    var p := Pow(numOps, len - 1);
    PowMonotone(numOps, 1, len - 1);
    assert Pow(numOps, 1) == numOps;
    assert Pow(numOps, len) == numOps * p;
    MulLe(2, numOps, p);
    assert p + 1 < numOps * p;
    ILogOfBounds(numOps, p + 1, len - 1);
  }

  /** For a single number the computed width is wrong: one operator (and so a
      read of the missing second number) without concatenation, and no room
      for `convert_base` to write its digit with it. */
  lemma BinWidthSingle()
    ensures BinWidth(2, 1) == 1 && BinWidth(3, 1) == 0
  {
  }

  // Calibration

  /** Every line can be asked. */
  predicate AllAskable(lines: seq<Line>, withConcat: bool) {
    forall k :: 0 <= k < |lines| ==> Askable(lines[k], withConcat)
  }

  /** `calibrated_sum`: the test values of the solvable equations. */
  function CalibratedSum(lines: seq<Line>, withConcat: bool): nat
    requires AllAskable(lines, withConcat)
  {
    if lines == [] then 0
    else
      var m := |lines| - 1;
      assert AllAskable(lines[..m], withConcat);
      CalibratedSum(lines[..m], withConcat) + (if Solvable(lines[m], withConcat) then lines[m].testValue else 0)
  }

  /** Part 2 collects at least what part 1 does. */
  lemma {:induction false} CalibratedMonotone(lines: seq<Line>)
    requires AllAskable(lines, true)
    ensures AllAskable(lines, false) && CalibratedSum(lines, false) <= CalibratedSum(lines, true)
  {
    if lines != [] {
      var m := |lines| - 1;
      assert AllAskable(lines[..m], true);
      CalibratedMonotone(lines[..m]);
      SolvableMonotone(lines[m]);
    }
  }

  /** The sum counts an equation exactly when it is solvable. */
  lemma {:induction false} CalibratedAppend(lines: seq<Line>, line: Line, withConcat: bool)
    requires AllAskable(lines, withConcat) && Askable(line, withConcat)
    ensures AllAskable(lines + [line], withConcat)
    ensures CalibratedSum(lines + [line], withConcat)
      == CalibratedSum(lines, withConcat) + (if Solvable(line, withConcat) then line.testValue else 0)
  {
    assert (lines + [line])[..|lines|] == lines;
  }
}
