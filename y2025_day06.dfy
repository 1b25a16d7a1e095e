/** 2025 day 6: a worksheet of arithmetic problems. Part 1 reads the numbers
    row by row and applies each column's operator down the column; part 2
    reads every character column as one number, top digit most significant,
    and groups the columns between all-blank separator columns. */
module Y2025Day06 {
  import opened Wrappers
  import opened Positional
  import opened Decimal
  import opened Text
  import opened SeqUtil

  /** `Op`: the operator under a problem. */
  datatype Op = Add | Mul

  /** `Op::from_str`: `"+"` and `"*"`; any other word panics. */
  function OpFromStr(s: String): (r: Option<Op>)
    ensures r == Some(Add) <==> s == "+"
    ensures r == Some(Mul) <==> s == "*"
    ensures r.None? <==> s != "+" && s != "*"
  {
    if s == "+" then Some(Add) else if s == "*" then Some(Mul) else None
  }

  /** The fold's start value: 0 for a sum, 1 for a product. */
  function Init(op: Op): nat {
    match op
    case Add => 0
    case Mul => 1
  }

  function Apply(op: Op, acc: nat, x: nat): nat {
    match op
    case Add => acc + x
    case Mul => acc * x
  }

  /** `xs.iter().fold(acc, |acc, x| op(acc, x))`, left to right. */
  function FoldFrom(op: Op, acc: nat, xs: seq<nat>): nat
    decreases |xs|
  {
    if xs == [] then acc else FoldFrom(op, Apply(op, acc, xs[0]), xs[1..])
  }

  /** One problem's answer: the fold from the operator's start value. */
  function Solve(op: Op, xs: seq<nat>): nat {
    FoldFrom(op, Init(op), xs)
  }

  /** The answer of a problem as arithmetic: the sum or the product of its numbers. */
  function Meaning(op: Op, xs: seq<nat>): int {
    match op
    case Add => Sum(xs)
    case Mul => Product(xs)
  }

  lemma {:induction false} FoldFromMeaning(op: Op, acc: nat, xs: seq<nat>)
    ensures op.Add? ==> FoldFrom(op, acc, xs) == acc + Sum(xs)
    ensures op.Mul? ==> FoldFrom(op, acc, xs) == acc * Product(xs)
    decreases |xs|
  {
    if xs != [] {
      FoldFromMeaning(op, Apply(op, acc, xs[0]), xs[1..]);
      assert xs == [xs[0]] + xs[1..];
      SumAppend([xs[0]], xs[1..]);
      ProductCons(xs[0], xs[1..]);
    }
  }

  lemma {:induction false} ProductCons(x: int, ys: seq<int>)
    ensures Product([x] + ys) == x * Product(ys)
    decreases |ys|
  {
    if ys == [] {
      assert [x] + ys == [x];
    } else {
      var init := ys[..|ys| - 1];
      assert ([x] + ys)[..|ys|] == [x] + init;
      ProductCons(x, init);
    }
  }

  /** A problem's fold is the sum or product of its numbers. */
  lemma SolveMeaning(op: Op, xs: seq<nat>)
    ensures Solve(op, xs) == Meaning(op, xs)
  {
    FoldFromMeaning(op, Init(op), xs);
  }

  /** Column `col` of the number rows. */
  function Column(rows: seq<seq<nat>>, col: nat): (r: seq<nat>)
    requires forall k :: 0 <= k < |rows| ==> col < |rows[k]|
    ensures |r| == |rows| && forall k :: 0 <= k < |rows| ==> r[k] == rows[k][col]
  {
    seq(|rows|, k requires 0 <= k < |rows| => rows[k][col])
  }

  /** Every row has a number under each operator (`row[col]` would panic otherwise). */
  predicate RowsCover(rows: seq<seq<nat>>, n: nat) {
    forall k :: 0 <= k < |rows| ==> n <= |rows[k]|
  }

  /** The answers of the first `n` columns, in part 1's reading. */
  function ColumnAnswers(rows: seq<seq<nat>>, ops: seq<Op>, n: nat): (r: seq<nat>)
    requires n <= |ops| && RowsCover(rows, |ops|)
    ensures |r| == n
  {
    if n == 0 then [] else ColumnAnswers(rows, ops, n - 1) + [Solve(ops[n - 1], Column(rows, n - 1))]
  }

  /** `solve_part1`: the grand total over the operator columns. */
  function SolvePart1(rows: seq<seq<nat>>, ops: seq<Op>): int
    requires RowsCover(rows, |ops|)
  {
    Sum(ColumnAnswers(rows, ops, |ops|))
  }

  /** The answers of the first `n` groups, in part 2's reading. */
  function GroupAnswers(groups: seq<seq<nat>>, ops: seq<Op>, n: nat): (r: seq<nat>)
    requires n <= |groups| && n <= |ops|
    ensures |r| == n
  {
    if n == 0 then [] else GroupAnswers(groups, ops, n - 1) + [Solve(ops[n - 1], groups[n - 1])]
  }

  function Min(a: nat, b: nat): nat {
    if a <= b then a else b
  }

  /** `solve_part2`: groups and operators paired by `zip`, which stops at the shorter. */
  function SolvePart2(groups: seq<seq<nat>>, ops: seq<Op>): int {
    Sum(GroupAnswers(groups, ops, Min(|groups|, |ops|)))
  }

  /** Each column answer of part 1 is the sum or product of that column. */
  lemma ColumnAnswersMeaning(rows: seq<seq<nat>>, ops: seq<Op>)
    requires RowsCover(rows, |ops|)
    ensures forall c :: 0 <= c < |ops| ==>
      ColumnAnswers(rows, ops, |ops|)[c] == Meaning(ops[c], Column(rows, c))
  {
    forall c | 0 <= c < |ops|
      ensures ColumnAnswers(rows, ops, |ops|)[c] == Meaning(ops[c], Column(rows, c))
    {
      ColumnAnswersAt(rows, ops, |ops|, c);
      SolveMeaning(ops[c], Column(rows, c));
    }
  }

  lemma {:induction false} ColumnAnswersAt(rows: seq<seq<nat>>, ops: seq<Op>, n: nat, c: nat)
    requires c < n <= |ops| && RowsCover(rows, |ops|)
    ensures ColumnAnswers(rows, ops, n)[c] == Solve(ops[c], Column(rows, c))
  {
    if c < n - 1 {
      ColumnAnswersAt(rows, ops, n - 1, c);
    }
  }

  /** Each group answer of part 2 is the sum or product of that group. */
  lemma GroupAnswersMeaning(groups: seq<seq<nat>>, ops: seq<Op>)
    ensures forall g :: 0 <= g < Min(|groups|, |ops|) ==>
      GroupAnswers(groups, ops, Min(|groups|, |ops|))[g] == Meaning(ops[g], groups[g])
  {
    var n := Min(|groups|, |ops|);
    forall g | 0 <= g < n ensures GroupAnswers(groups, ops, n)[g] == Meaning(ops[g], groups[g]) {
      GroupAnswersAt(groups, ops, n, g);
      SolveMeaning(ops[g], groups[g]);
    }
  }

  lemma {:induction false} GroupAnswersAt(groups: seq<seq<nat>>, ops: seq<Op>, n: nat, g: nat)
    requires g < n <= |groups| && n <= |ops|
    ensures GroupAnswers(groups, ops, n)[g] == Solve(ops[g], groups[g])
  {
    if g < n - 1 {
      GroupAnswersAt(groups, ops, n - 1, g);
    }
  }

  /** The columns of the number rows, as part 2's groups. */
  function Columns(rows: seq<seq<nat>>, n: nat): (r: seq<seq<nat>>)
    requires RowsCover(rows, n)
    ensures |r| == n && forall c :: 0 <= c < n ==> r[c] == Column(rows, c)
  {
    seq(n, c requires 0 <= c < n => Column(rows, c))
  }

  /** Part 1 is part 2 applied to the columns: the two parts differ only in
      how the numbers are read. */
  lemma {:induction false} Part1IsPart2OfColumns(rows: seq<seq<nat>>, ops: seq<Op>, n: nat)
    requires n <= |ops| && RowsCover(rows, |ops|)
    ensures ColumnAnswers(rows, ops, n) == GroupAnswers(Columns(rows, |ops|), ops, n)
  {
    if n > 0 {
      Part1IsPart2OfColumns(rows, ops, n - 1);
    }
  }

  lemma SolvePart1IsPart2(rows: seq<seq<nat>>, ops: seq<Op>)
    requires RowsCover(rows, |ops|)
    ensures SolvePart1(rows, ops) == SolvePart2(Columns(rows, |ops|), ops)
  {
    Part1IsPart2OfColumns(rows, ops, |ops|);
  }

  // Part 1 parsing

  /** `line_holds_numbers`: whether the first word parses as a number; `None`
      when the line has no word at all (`next().unwrap()` panics). */
  function LineHoldsNumbers(line: String): (r: Option<bool>)
    ensures r.None? <==> SplitWhitespace(line) == []
    ensures r == Some(true) <==> SplitWhitespace(line) != [] && ParseU64(SplitWhitespace(line)[0]).Some?
  {
    var words := SplitWhitespace(line);
    if words == [] then None else Some(ParseU64(words[0]).Some?)
  }

  /** `take_while(line_holds_numbers).count()`: the number of leading number
      rows, or `None` if a blank line is reached first. */
  function NumberRowCount(lines: seq<String>): (r: Option<nat>)
    ensures r.Some? ==> (r.value <= |lines|
      && (forall k :: 0 <= k < r.value ==> LineHoldsNumbers(lines[k]) == Some(true))
      && (r.value < |lines| ==> LineHoldsNumbers(lines[r.value]) == Some(false)))
    ensures r.None? ==> (exists k :: (0 <= k < |lines| && LineHoldsNumbers(lines[k]).None?
      && forall j :: 0 <= j < k ==> LineHoldsNumbers(lines[j]) == Some(true)))
  {
    if lines == [] then Some(0)
    else match LineHoldsNumbers(lines[0])
      case None => None
      case Some(false) => Some(0)
      case Some(true) =>
        match NumberRowCount(lines[1..])
        case None =>
          ghost var k :| 0 <= k < |lines[1..]| && LineHoldsNumbers(lines[1..][k]).None?
            && forall j :: 0 <= j < k ==> LineHoldsNumbers(lines[1..][j]) == Some(true);
          assert LineHoldsNumbers(lines[k + 1]).None?;
          None
        case Some(n) => Some(n + 1)
  }

  /** One number row: every word parsed as a number. */
  function ParseRow(line: String): Option<seq<nat>> {
    MapAll(SplitWhitespace(line), ParseU64)
  }

  /** The operator row: every word parsed as an operator. */
  function ParseOps(line: String): Option<seq<Op>> {
    MapAll(SplitWhitespace(line), OpFromStr)
  }

  /** `parse_part1` on the trimmed input: the leading number rows and the line
      after them as operators; `None` where the program panics. */
  function ParsePart1(input: String): (r: Option<(seq<seq<nat>>, seq<Op>)>)
    ensures r.Some? ==> NumberRowCount(Lines(Trim(input))).Some?
    ensures r.Some? ==>
      var lines, n := Lines(Trim(input)), NumberRowCount(Lines(Trim(input))).value;
      n < |lines| && |r.value.0| == n
      && (forall k :: 0 <= k < n ==> ParseRow(lines[k]) == Some(r.value.0[k]))
      && ParseOps(lines[n]) == Some(r.value.1)
  {
    var lines := Lines(Trim(input));
    match NumberRowCount(lines)
    case None => None
    case Some(n) =>
      if n == |lines| then None
      else match (MapAll(lines[..n], ParseRow), ParseOps(lines[n]))
        case (Some(rows), Some(ops)) => Some((rows, ops))
        case _ => None
  }

  // Part 2 parsing

  /** Exactly the lines on which `parse_part2` runs without a panic: every
      line above the operator line reaches each column of the first line (the
      digit loop reads them all, and `all` reads them in order), and the
      operator line, which `trim` may have shortened, reaches every column
      where `all` gets to it, that is, where every line above it is blank. */
  predicate Shaped(lines: seq<String>) {
    |lines| >= 1
    && (forall k :: 0 <= k < |lines| - 1 ==> |lines[0]| <= |lines[k]|)
    && (forall col: nat :: col < |lines[0]| && BlankAbove(lines, col) ==> col < |lines[|lines| - 1]|)
  }

  /** Column `col` is whitespace in every line above the operator line. */
  predicate BlankAbove(lines: seq<String>, col: nat)
    requires |lines| >= 1 && forall k :: 0 <= k < |lines| - 1 ==> col < |lines[k]|
  {
    forall k :: 0 <= k < |lines| - 1 ==> IsWhitespace(lines[k][col])
  }

  /** A separator column: the short-circuiting `all` over the lines, which
      reads the operator line only when every line above it is blank there. */
  predicate Separator(lines: seq<String>, col: nat)
    requires Shaped(lines) && col < |lines[0]|
  {
    BlankAbove(lines, col) && IsWhitespace(lines[|lines| - 1][col])
  }

  /** The digits of column `col` in `rows`, top to bottom, skipping other characters. */
  function ColumnDigits(rows: seq<String>, col: nat): (r: seq<nat>)
    requires forall k :: 0 <= k < |rows| ==> col < |rows[k]|
    ensures |r| <= |rows| && DigitsBelow(r, 10)
  {
    if rows == [] then []
    else (if IsDigit(rows[0][col]) then [DigitOf(rows[0][col])] else []) + ColumnDigits(rows[1..], col)
  }

  /** The number column `col` stands for: its digits above the operator line,
      read top to bottom as a decimal. */
  function ColumnNumber(lines: seq<String>, col: nat): nat
    requires Shaped(lines) && col < |lines[0]|
  {
    ValueOf(ColumnDigits(lines[..|lines| - 1], col))
  }

  /** The inner loop of `parse_part2`: the lines above the operator line from
      the bottom up, each digit worth ten times the one below it. */
  method ColumnValue(lines: seq<String>, col: nat) returns (num: nat)
    requires Shaped(lines) && col < |lines[0]|
    ensures num == ColumnNumber(lines, col)
  {
    var last := |lines| - 1;
    var digit: nat := 0;
    num := 0;
    var k := last;
    while k > 0
      invariant 0 <= k <= last
      invariant digit == |ColumnDigits(lines[k..last], col)|
      invariant num == ValueOf(ColumnDigits(lines[k..last], col))
    {
      k := k - 1;
      ColumnDigitsStep(lines[k..last], col);
      var c := lines[k][col];
      if IsDigit(c) {
        num := num + DigitOf(c) * Pow10(digit);
        digit := digit + 1;
      }
    }
    assert lines[..last] == lines[0..last];
  }

  /** Reading one more row on top of a column: a digit there is worth ten to
      the number of digits below it. */
  lemma ColumnDigitsStep(rows: seq<String>, col: nat)
    requires |rows| >= 1 && forall k :: 0 <= k < |rows| ==> col < |rows[k]|
    ensures var below := ColumnDigits(rows[1..], col);
      if IsDigit(rows[0][col]) then
        |ColumnDigits(rows, col)| == |below| + 1
        && ValueOf(ColumnDigits(rows, col)) == ValueOf(below) + DigitOf(rows[0][col]) * Pow10(|below|)
      else ColumnDigits(rows, col) == below
  {
    var below := ColumnDigits(rows[1..], col);
    if IsDigit(rows[0][col]) {
      var d := DigitOf(rows[0][col]);
      ValueInAppend([d], below, 10);
      assert ValueIn([d], 10) == d by {
        assert [d][..0] == [];
      }
    }
  }

  /** The state of `parse_part2` after the first `c` columns: the finished
      groups and the numbers of the open one. */
  function GroupsUpTo(lines: seq<String>, c: nat): (seq<seq<nat>>, seq<nat>)
    requires Shaped(lines) && c <= |lines[0]|
  {
    if c == 0 then ([], [])
    else
      var (done, open) := GroupsUpTo(lines, c - 1);
      if Separator(lines, c - 1) then (done + [open], [])
      else (done, open + [ColumnNumber(lines, c - 1)])
  }

  /** What `parse_part2` returns: every group, the last one closed at the end. */
  function Groups(lines: seq<String>): seq<seq<nat>>
    requires Shaped(lines)
  {
    var (done, open) := GroupsUpTo(lines, |lines[0]|);
    done + [open]
  }

  /** `parse_part2` on the lines of the trimmed input. */
  method ParsePart2(lines: seq<String>) returns (numbers: seq<seq<nat>>)
    requires Shaped(lines)
    ensures numbers == Groups(lines)
  {
    var ncols := |lines[0]|;
    numbers := [];
    var numbersSameOp: seq<nat> := [];
    for col := 0 to ncols
      invariant (numbers, numbersSameOp) == GroupsUpTo(lines, col)
    {
      if Separator(lines, col) {
        numbers := numbers + [numbersSameOp];
        numbersSameOp := [];
      } else {
        var num := ColumnValue(lines, col);
        numbersSameOp := numbersSameOp + [num];
      }
    }
    numbers := numbers + [numbersSameOp];
  }

  /** Number of separator columns among the first `c`. */
  function SeparatorCount(lines: seq<String>, c: nat): nat
    requires Shaped(lines) && c <= |lines[0]|
  {
    if c == 0 then 0 else SeparatorCount(lines, c - 1) + (if Separator(lines, c - 1) then 1 else 0)
  }

  /** The numbers of the non-separator columns among the first `c`, left to right. */
  function NumberColumns(lines: seq<String>, c: nat): seq<nat>
    requires Shaped(lines) && c <= |lines[0]|
  {
    if c == 0 then []
    else NumberColumns(lines, c - 1) + (if Separator(lines, c - 1) then [] else [ColumnNumber(lines, c - 1)])
  }

  function Flatten(gs: seq<seq<nat>>): seq<nat> {
    if gs == [] then [] else Flatten(gs[..|gs| - 1]) + gs[|gs| - 1]
  }

  lemma {:induction false} GroupsUpToShape(lines: seq<String>, c: nat)
    requires Shaped(lines) && c <= |lines[0]|
    ensures |GroupsUpTo(lines, c).0| == SeparatorCount(lines, c)
    ensures Flatten(GroupsUpTo(lines, c).0) + GroupsUpTo(lines, c).1 == NumberColumns(lines, c)
  {
    if c > 0 {
      GroupsUpToShape(lines, c - 1);
      var done := GroupsUpTo(lines, c - 1).0;
      var open := GroupsUpTo(lines, c - 1).1;
      if Separator(lines, c - 1) {
        FlattenSnoc(done, open);
      } else {
        AppendAssoc(Flatten(done), open, [ColumnNumber(lines, c - 1)]);
      }
    }
  }

  lemma FlattenSnoc(gs: seq<seq<nat>>, g: seq<nat>)
    ensures Flatten(gs + [g]) == Flatten(gs) + g
  {
    assert (gs + [g])[..|gs|] == gs;
  }

  /** Separator columns split the columns into one more group than there are
      separators, and the groups hold, in order, one number per other column. */
  lemma GroupsShape(lines: seq<String>)
    requires Shaped(lines)
    ensures |Groups(lines)| == SeparatorCount(lines, |lines[0]|) + 1
    ensures Flatten(Groups(lines)) == NumberColumns(lines, |lines[0]|)
  {
    GroupsUpToShape(lines, |lines[0]|);
    FlattenSnoc(GroupsUpTo(lines, |lines[0]|).0, GroupsUpTo(lines, |lines[0]|).1);
  }

  /** Three trimmed lines whose operator line is shorter than the first. */
  const ShortOperatorLines: seq<String> := ["12", "34", "+"]

  lemma ShortOperatorShaped()
    ensures Shaped(ShortOperatorLines)
    ensures !Separator(ShortOperatorLines, 0) && !Separator(ShortOperatorLines, 1)
  {
    var lines := ShortOperatorLines;
    assert !IsWhitespace(lines[0][0]) && !IsWhitespace(lines[0][1]);
  }

  lemma ShortOperatorColumns()
    ensures Shaped(ShortOperatorLines)
    ensures ColumnNumber(ShortOperatorLines, 0) == 13 && ColumnNumber(ShortOperatorLines, 1) == 24
  {
    ShortOperatorShaped();
    var above := ["12", "34"];
    assert ShortOperatorLines[..2] == above;
    assert above[1..] == ["34"] && ["34"][1..] == [];
    assert DigitOf('1') == 1 && DigitOf('2') == 2 && DigitOf('3') == 3 && DigitOf('4') == 4;
    assert ColumnDigits(above, 0) == [1, 3];
    assert ColumnDigits(above, 1) == [2, 4];
    assert [1, 3][..1] == [1] && [2, 4][..1] == [2] && [1][..0] == [] && [2][..0] == [];
  }

  /** The operator line may be shorter than the first line: here `trim` has
      left it one character long, and the columns still give 13 and 24. */
  lemma ShortOperatorLine()
    ensures Shaped(ShortOperatorLines)
    ensures Groups(ShortOperatorLines) == [[13, 24]]
  {
    ShortOperatorShaped();
    ShortOperatorColumns();
    var lines := ShortOperatorLines;
    assert |lines[0]| == 2;
    assert GroupsUpTo(lines, 0) == ([], []);
    assert [] + [ColumnNumber(lines, 0)] == [13];
    assert GroupsUpTo(lines, 1) == ([], [13]);
    assert [13] + [ColumnNumber(lines, 1)] == [13, 24];
    assert GroupsUpTo(lines, 2) == ([], [13, 24]);
    assert [] + [[13, 24]] == [[13, 24]];
  }

  /** A column number has at most as many digits as there are rows above the operators. */
  lemma ColumnNumberBound(lines: seq<String>, col: nat)
    requires Shaped(lines) && col < |lines[0]|
    ensures ColumnNumber(lines, col) < Pow10(|lines| - 1)
  {
    var ds := ColumnDigits(lines[..|lines| - 1], col);
    ValueInBound(ds, 10);
    PowMonotone(10, |ds|, |lines| - 1);
  }
}
