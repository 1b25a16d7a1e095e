/** Word search: count `XMAS` forwards and backwards along rows, columns and
    diagonals (part 1), and the `MAS` crosses centred on an `A` (part 2). */
module Y2024Day04 {
  import opened Wrappers
  import opened Text
  import opened SeqUtil
  import opened Positional

  /** `if input.ends_with('\n') { input.pop(); }`: drops one trailing line
      feed and nothing else. */
  function DropNewline(input: String): (r: String)
    ensures r == input || r + "\n" == input
    ensures r + "\n" == input <==> (input != [] && input[|input| - 1] == '\n')
  {
    if input != [] && input[|input| - 1] == '\n' then input[..|input| - 1] else input
  }

  /** `horizontals`: the lines of the text. */
  function Horizontals(input: String): seq<String> {
    Split(input, '\n')
  }

  /** The lines joined by line feeds give back the text. */
  lemma HorizontalsJoin(input: String)
    ensures Join(Horizontals(input), "\n") == input
    ensures forall k :: 0 <= k < |Horizontals(input)| ==> '\n' !in Horizontals(input)[k]
  {
    JoinSplit(input, '\n');
  }

  // Grid geometry, as `verticals` and `diagonals` read it

  /** `input.find("\n").unwrap_or(input.len())`: the length of the first line. */
  function NRows(input: String): nat {
    match Find(input, "\n")
    case Some(i) => i
    case None => |input|
  }

  /** `input.len() / nrows`. */
  function NCols(input: String): nat
    requires NRows(input) > 0
  {
    |input| / NRows(input)
  }

  /** `input.replace("\n", "")`. */
  function Flat(input: String): String {
    Remove(input, '\n')
  }


  /** A position inside an `n` by `n` grid lies inside its `n * n` characters. */
  lemma GridIndex(r: nat, c: nat, n: nat)
    requires c < n
    ensures r * n + c < n * n <==> r < n
  {
    if r < n {
      MulLe(r, n - 1, n);
      assert (n - 1) * n == n * n - n;
    } else {
      MulLe(n, r, n);
    }
  }

  /** Counting from the end of an `n` by `n` grid mirrors both coordinates. */
  lemma BackIndex(r: nat, c: nat, n: nat)
    requires r < n && c < n
    ensures r * n + c < n * n
    ensures n * n - 1 - (r * n + c) == (n - 1 - r) * n + (n - 1 - c)
  {
    GridIndex(r, c, n);
    assert (n - 1 - r) * n == n * n - n - r * n;
  }

  /** The character at row `row`, column `col` of the text without line
      feeds of an `n` by `n` grid. */
  function Cell(flat: String, n: nat, row: nat, col: nat): char
    requires row < n && col < n && |flat| == n * n
  {
    GridIndex(row, col, n);
    flat[row * n + col]
  }

  // Verticals

  /** What `verticals` demands: a non-empty first line, as many columns as
      rows, and enough characters for every column (`assert_eq!` and
      `unwrap`). */
  predicate VerticalsOk(input: String) {
    NRows(input) > 0 && NCols(input) == NRows(input) && |Flat(input)| >= NRows(input) * NRows(input)
  }

  /** Column `j`: characters `j`, `n + j`, `2n + j`, ... of the text without line feeds. */
  function Column(flat: String, n: nat, j: nat): (r: String)
    requires j < n && |flat| >= n * n
    ensures |r| == n
  {
    seq(n, i requires 0 <= i < n => GridIndex(i, j, n); flat[i * n + j])
  }

  /** The columns `verticals` returns. */
  function VerticalsOf(flat: String, n: nat): (r: seq<String>)
    requires |flat| >= n * n
    ensures |r| == n
  {
    seq(n, j requires 0 <= j < n => Column(flat, n, j))
  }

  /** `verticals`: for each column, push its characters row by row. */
  method Verticals(input: String) returns (ret: seq<String>)
    requires VerticalsOk(input)
    ensures ret == VerticalsOf(Flat(input), NRows(input))
  {
    var nrows := NRows(input);
    var ncols := NCols(input);
    var flat := Flat(input);
    ret := [];
    for j := 0 to ncols
      invariant ret == VerticalsOf(flat, nrows)[..j]
    {
      var col := [];
      for i := 0 to nrows
        invariant col == Column(flat, nrows, j)[..i]
      {
        GridIndex(i, j, nrows);
        col := col + [flat[i * nrows + j]];
      }
      assert col == Column(flat, nrows, j);
      assert VerticalsOf(flat, nrows)[..j + 1] == VerticalsOf(flat, nrows)[..j] + [col];
      ret := ret + [col];
    }
    assert VerticalsOf(flat, nrows)[..ncols] == VerticalsOf(flat, nrows);
  }

  // Diagonals

  /** The two index formulas of `diagonals`: along the main diagonal
      direction, and along the anti-diagonal direction. */
  datatype Direction = Main | Anti

  /** The index the inner loops of `diagonals` compute for step `j` of
      diagonal `i`. */
  function Index(dir: Direction, nrows: nat, ncols: nat, i: nat, j: nat): nat
    requires dir == Anti ==> i < ncols && j < nrows
  {
    var row: nat := match dir
      case Main => i + j
      case Anti => ncols - 1 - i + nrows - 1 - j;
    MulLe(0, row, nrows);
    row * nrows + j
  }

  /** `chars().nth(index)` or, when `back`, `chars().nth_back(index)`: the
      character there, or nothing past the end. */
  function Pick(flat: String, index: nat, back: bool): (r: String)
    ensures |r| <= 1
  {
    if index < |flat| then [if back then flat[|flat| - 1 - index] else flat[index]] else []
  }

  /** The string an inner loop of `diagonals` builds in its first `m` steps. */
  function Gather(flat: String, dir: Direction, nrows: nat, ncols: nat, i: nat, back: bool, m: nat): String
    requires dir == Anti ==> i < ncols && m <= nrows
  {
    if m == 0 then []
    else Gather(flat, dir, nrows, ncols, i, back, m - 1) + Pick(flat, Index(dir, nrows, ncols, i, m - 1), back)
  }

  /** The strings one loop of `diagonals` builds: diagonals `first`,
      `first + 1`, ... of one direction. */
  function Family(flat: String, dir: Direction, nrows: nat, ncols: nat, first: nat, count: nat, back: bool, m: nat)
    : (r: seq<String>)
    requires dir == Anti ==> first + count <= ncols && m <= nrows
    ensures |r| == count
  {
    seq(count, i requires 0 <= i < count => Gather(flat, dir, nrows, ncols, first + i, back, m))
  }

  /** The strings `diagonals` returns, in the order of its four loops. */
  function DiagonalsOf(flat: String, nrows: nat, ncols: nat): (r: seq<String>)
    requires nrows >= 1 && ncols >= 1
    ensures |r| == nrows + (nrows - 1) + ncols + (ncols - 1)
  {
    Family(flat, Main, nrows, ncols, 0, nrows, false, ncols)
    + Family(flat, Main, nrows, ncols, 1, nrows - 1, true, ncols)
    + Family(flat, Anti, nrows, ncols, 0, ncols, false, nrows)
    + Family(flat, Anti, nrows, ncols, 0, ncols - 1, true, nrows)
  }

  /** One inner loop of `diagonals`: push the characters that exist, skip
      the indices past the end. */
  method Diagonal(flat: String, dir: Direction, nrows: nat, ncols: nat, i: nat, back: bool, m: nat)
    returns (diag: String)
    requires dir == Anti ==> i < ncols && m <= nrows
    ensures diag == Gather(flat, dir, nrows, ncols, i, back, m)
  {
    diag := [];
    for j := 0 to m
      invariant diag == Gather(flat, dir, nrows, ncols, i, back, j)
    {
      var index := Index(dir, nrows, ncols, i, j);
      if index < |flat| {
        diag := diag + [if back then flat[|flat| - 1 - index] else flat[index]];
      }
    }
  }

  /** One outer loop of `diagonals`: push diagonals `first`, `first + 1`,
      ... of one direction after the strings already built. */
  method PushFamily(done: seq<String>, flat: String, dir: Direction, nrows: nat, ncols: nat, first: nat, count: nat,
                    back: bool, m: nat)
    returns (ret: seq<String>)
    requires dir == Anti ==> first + count <= ncols && m <= nrows
    ensures ret == done + Family(flat, dir, nrows, ncols, first, count, back, m)
  {
    var family := Family(flat, dir, nrows, ncols, first, count, back, m);
    ret := done;
    for i := 0 to count
      invariant ret == done + family[..i]
    {
      var diag := Diagonal(flat, dir, nrows, ncols, first + i, back, m);
      assert family[..i + 1] == family[..i] + [diag];
      AppendAssoc(done, family[..i], [diag]);
      ret := ret + [diag];
    }
    assert family[..count] == family;
  }

  /** `diagonals`: the lower and upper halves in both diagonal directions. */
  method Diagonals(input: String) returns (ret: seq<String>)
    requires NRows(input) > 0
    ensures ret == DiagonalsOf(Flat(input), NRows(input), NCols(input))
  {
    NColsPositive(input);
    ret := DiagonalLoops(Flat(input), NRows(input), NCols(input));
  }

  /** The first line is no longer than the text, so a grid with a non-empty
      first line has at least one column. */
  lemma NColsPositive(input: String)
    requires NRows(input) > 0
    ensures NCols(input) >= 1
  {
    match Find(input, "\n")
    case Some(i) =>
    case None =>
  }

  /** The four loops of `diagonals` over the text without line feeds. */
  method DiagonalLoops(flat: String, nrows: nat, ncols: nat) returns (ret: seq<String>)
    requires nrows >= 1 && ncols >= 1
    ensures ret == DiagonalsOf(flat, nrows, ncols)
  {
    ret := PushFamily([], flat, Main, nrows, ncols, 0, nrows, false, ncols);
    ret := PushFamily(ret, flat, Main, nrows, ncols, 1, nrows - 1, true, ncols);
    ret := PushFamily(ret, flat, Anti, nrows, ncols, 0, ncols, false, nrows);
    ret := PushFamily(ret, flat, Anti, nrows, ncols, 0, ncols - 1, true, nrows);
  }

  /** When the indices that exist are exactly the steps `lo <= j < hi`, the
      gathered string holds one character per such step. */
  lemma {:induction false} GatherLength(flat: String, dir: Direction, nrows: nat, ncols: nat, i: nat, back: bool,
                                        m: nat, lo: nat, hi: nat)
    requires dir == Anti ==> i < ncols && m <= nrows
    requires lo <= hi <= m
    requires forall j :: 0 <= j < m ==> (Index(dir, nrows, ncols, i, j) < |flat| <==> lo <= j < hi)
    ensures |Gather(flat, dir, nrows, ncols, i, back, m)| == hi - lo
  {
    if m > 0 {
      if m - 1 >= hi {
        GatherLength(flat, dir, nrows, ncols, i, back, m - 1, lo, hi);
      } else if lo < hi {
        GatherLength(flat, dir, nrows, ncols, i, back, m - 1, lo, m - 1);
      } else {
        GatherLength(flat, dir, nrows, ncols, i, back, m - 1, m - 1, m - 1);
      }
    }
  }

  /** ... and its character `k` is the one at step `lo + k`. */
  lemma {:induction false} GatherWindow(flat: String, dir: Direction, nrows: nat, ncols: nat, i: nat, back: bool,
                                        m: nat, lo: nat, hi: nat, k: nat)
    requires dir == Anti ==> i < ncols && m <= nrows
    requires lo <= hi <= m && k < hi - lo
    requires forall j :: 0 <= j < m ==> (Index(dir, nrows, ncols, i, j) < |flat| <==> lo <= j < hi)
    ensures k < |Gather(flat, dir, nrows, ncols, i, back, m)|
    ensures Gather(flat, dir, nrows, ncols, i, back, m)[k] == Pick(flat, Index(dir, nrows, ncols, i, lo + k), back)[0]
  {
    GatherLength(flat, dir, nrows, ncols, i, back, m, lo, hi);
    var g := Gather(flat, dir, nrows, ncols, i, back, m - 1);
    if m - 1 >= hi {
      GatherWindow(flat, dir, nrows, ncols, i, back, m - 1, lo, hi, k);
    } else if k < m - 1 - lo {
      GatherWindow(flat, dir, nrows, ncols, i, back, m - 1, lo, m - 1, k);
    } else {
      GatherLength(flat, dir, nrows, ncols, i, back, m - 1, lo, m - 1);
    }
  }

  // Square grids

  /** `n` lines of `n` characters each, the grid the puzzle assumes. */
  predicate Shaped(input: String, n: nat) {
    n >= 1 && |Horizontals(input)| == n && forall k :: 0 <= k < n ==> |Horizontals(input)[k]| == n
  }

  lemma {:induction false} ConcatLength(rows: seq<String>, n: nat)
    requires forall k :: 0 <= k < |rows| ==> |rows[k]| == n
    ensures |Concat(rows)| == |rows| * n
    decreases |rows|
  {
    if rows != [] {
      ConcatLength(rows[1..], n);
      assert |rows| * n == n + (|rows| - 1) * n;
    }
  }

  /** In rows of `n` characters run together, row `r`, column `c` is at `r * n + c`. */
  lemma {:induction false} ConcatCell(rows: seq<String>, n: nat, r: nat, c: nat)
    requires forall k :: 0 <= k < |rows| ==> |rows[k]| == n
    requires r < |rows| && c < n
    ensures r * n + c < |Concat(rows)| && Concat(rows)[r * n + c] == rows[r][c]
    decreases r
  {
    ConcatLength(rows, n);
    GridIndex(r, c, n);
    MulLe(r + 1, |rows|, n);
    if r > 0 {
      ConcatCell(rows[1..], n, r - 1, c);
      assert r * n + c == n + ((r - 1) * n + c);
    }
  }

  lemma {:induction false} JoinLength(rows: seq<String>, n: nat, c: char)
    requires |rows| >= 1
    requires forall k :: 0 <= k < |rows| ==> |rows[k]| == n
    ensures |Join(rows, [c])| == |rows| * n + |rows| - 1
    decreases |rows|
  {
    if |rows| > 1 {
      JoinLength(rows[1..], n, c);
      assert |rows| * n == n + (|rows| - 1) * n;
    }
  }

  lemma NoLineFeed(s: String)
    requires '\n' !in s
    ensures Find(s, "\n").None?
  {
    forall i | 0 <= i ensures !MatchAt(s, "\n", i) {
      if i + 1 <= |s| {
        assert s[i..i + 1][0] == s[i];
      }
    }
  }

  /** The first line of a square grid is `n` long, as `find("\n")` sees it. */
  lemma ShapedRows(input: String, n: nat)
    requires Shaped(input, n)
    ensures NRows(input) == n
  {
    var rows := Horizontals(input);
    HorizontalsJoin(input);
    if n == 1 {
      assert input == rows[0];
      NoLineFeed(input);
    } else {
      assert input == rows[0] + "\n" + Join(rows[1..], "\n");
      assert input[..n] == rows[0];
      FirstCharAt(input, '\n', n);
    }
  }

  /** The text of a square grid is `n * n + n - 1` long, so `len / nrows` is `n`. */
  lemma ShapedCols(input: String, n: nat)
    requires Shaped(input, n)
    ensures NRows(input) == n && NCols(input) == n
  {
    ShapedRows(input, n);
    HorizontalsJoin(input);
    JoinLength(Horizontals(input), n, '\n');
    DivModUnique(n, n - 1, n);
  }

  /** A square grid of `n` lines has `n` rows and `n` columns as `verticals`
      and `diagonals` compute them, and its text without line feeds is the
      lines run together. */
  lemma ShapedGeometry(input: String, n: nat)
    requires Shaped(input, n)
    ensures NRows(input) == n && NCols(input) == n
    ensures Flat(input) == Concat(Horizontals(input)) && |Flat(input)| == n * n
    ensures VerticalsOk(input)
  {
    ShapedCols(input, n);
    HorizontalsJoin(input);
    RemoveJoin(Horizontals(input), '\n');
    ConcatLength(Horizontals(input), n);
  }

  /** Row `r`, column `c` of the flattened square grid is character `c` of line `r`. */
  lemma ShapedCell(input: String, n: nat, r: nat, c: nat)
    requires Shaped(input, n) && r < n && c < n
    ensures |Flat(input)| == n * n && Cell(Flat(input), n, r, c) == Horizontals(input)[r][c]
  {
    ShapedGeometry(input, n);
    ConcatCell(Horizontals(input), n, r, c);
  }

  /** On a square grid the verticals are the lines transposed. */
  lemma VerticalsTranspose(input: String, n: nat)
    requires Shaped(input, n)
    ensures VerticalsOk(input) && NRows(input) == n
    ensures forall i, j :: 0 <= i < n && 0 <= j < n ==> VerticalsOf(Flat(input), n)[j][i] == Horizontals(input)[i][j]
  {
    ShapedGeometry(input, n);
    forall i, j | 0 <= i < n && 0 <= j < n
      ensures VerticalsOf(Flat(input), n)[j][i] == Horizontals(input)[i][j]
    {
      ShapedCell(input, n, i, j);
    }
  }

  /** Diagonal `i` of the first loop starts at row `i`, column 0 and runs down
      to the right. */
  lemma MainLower(flat: String, n: nat, i: nat)
    requires n >= 1 && |flat| == n * n && i < n
    ensures |DiagonalsOf(flat, n, n)[i]| == n - i
    ensures forall k :: 0 <= k < n - i ==> DiagonalsOf(flat, n, n)[i][k] == Cell(flat, n, i + k, k)
  {
    var d := DiagonalsOf(flat, n, n)[i];
    assert d == Gather(flat, Main, n, n, i, false, n);
    forall j | 0 <= j < n ensures Index(Main, n, n, i, j) < |flat| <==> 0 <= j < n - i {
      GridIndex(i + j, j, n);
    }
    GatherLength(flat, Main, n, n, i, false, n, 0, n - i);
    forall k | 0 <= k < n - i ensures d[k] == Cell(flat, n, i + k, k) {
      GatherWindow(flat, Main, n, n, i, false, n, 0, n - i, k);
      assert Index(Main, n, n, i, k) == (i + k) * n + k;
    }
  }

  /** Diagonal `i` of the second loop (`1 <= i < n`) is read from the end of
      the text: it starts at the bottom right of the diagonal that begins at
      row 0, column `i`, and runs up to the left. */
  lemma MainUpper(flat: String, n: nat, i: nat)
    requires n >= 1 && |flat| == n * n && 1 <= i < n
    ensures var d := DiagonalsOf(flat, n, n)[n + i - 1];
      |d| == n - i && forall k :: 0 <= k < n - i ==> d[k] == Cell(flat, n, n - 1 - i - k, n - 1 - k)
  {
    var d := DiagonalsOf(flat, n, n)[n + i - 1];
    assert d == Gather(flat, Main, n, n, i, true, n);
    forall j | 0 <= j < n ensures Index(Main, n, n, i, j) < |flat| <==> 0 <= j < n - i {
      GridIndex(i + j, j, n);
    }
    GatherLength(flat, Main, n, n, i, true, n, 0, n - i);
    forall k | 0 <= k < n - i ensures d[k] == Cell(flat, n, n - 1 - i - k, n - 1 - k) {
      GatherWindow(flat, Main, n, n, i, true, n, 0, n - i, k);
      assert Index(Main, n, n, i, k) == (i + k) * n + k;
      BackIndex(i + k, k, n);
    }
  }

  /** Anti-diagonal `i` of the third loop starts at the bottom row, column
      `n - 1 - i`, and runs up to the right. */
  lemma AntiLower(flat: String, n: nat, i: nat)
    requires n >= 1 && |flat| == n * n && i < n
    ensures var d := DiagonalsOf(flat, n, n)[2 * n - 1 + i];
      |d| == i + 1 && forall k :: 0 <= k <= i ==> d[k] == Cell(flat, n, n - 1 - k, n - 1 - i + k)
  {
    var d := DiagonalsOf(flat, n, n)[2 * n - 1 + i];
    assert d == Gather(flat, Anti, n, n, i, false, n);
    forall j | 0 <= j < n ensures Index(Anti, n, n, i, j) < |flat| <==> n - 1 - i <= j < n {
      GridIndex(n - 1 - i + n - 1 - j, j, n);
    }
    GatherLength(flat, Anti, n, n, i, false, n, n - 1 - i, n);
    forall k | 0 <= k <= i ensures d[k] == Cell(flat, n, n - 1 - k, n - 1 - i + k) {
      GatherWindow(flat, Anti, n, n, i, false, n, n - 1 - i, n, k);
      assert Index(Anti, n, n, i, n - 1 - i + k) == (n - 1 - k) * n + (n - 1 - i + k);
    }
  }

  /** Anti-diagonal `i` of the fourth loop (`i < n - 1`) is read from the end
      of the text: it starts at row 0, column `i`, and runs down to the left. */
  lemma AntiUpper(flat: String, n: nat, i: nat)
    requires n >= 1 && |flat| == n * n && i < n - 1
    ensures var d := DiagonalsOf(flat, n, n)[3 * n - 1 + i];
      |d| == i + 1 && forall k :: 0 <= k <= i ==> d[k] == Cell(flat, n, k, i - k)
  {
    var d := DiagonalsOf(flat, n, n)[3 * n - 1 + i];
    assert d == Gather(flat, Anti, n, n, i, true, n);
    forall j | 0 <= j < n ensures Index(Anti, n, n, i, j) < |flat| <==> n - 1 - i <= j < n {
      GridIndex(n - 1 - i + n - 1 - j, j, n);
    }
    GatherLength(flat, Anti, n, n, i, true, n, n - 1 - i, n);
    forall k | 0 <= k <= i ensures d[k] == Cell(flat, n, k, i - k) {
      GatherWindow(flat, Anti, n, n, i, true, n, n - 1 - i, n, k);
      assert Index(Anti, n, n, i, n - 1 - i + k) == (n - 1 - k) * n + (n - 1 - i + k);
      BackIndex(n - 1 - k, n - 1 - i + k, n);
    }
  }

  // Part 1

  /** `.map(|s| s.matches(pat).count()).sum()`. */
  function MatchTotal(strings: seq<String>, pat: String): nat
    requires |pat| >= 1
  {
    if strings == [] then 0
    else MatchTotal(strings[..|strings| - 1], pat) + CountMatches(strings[|strings| - 1], pat)
  }

  /** A string has no match exactly when the pattern does not occur in it. */
  lemma CountMatchesZero(s: String, pat: String)
    requires |pat| >= 1
    ensures CountMatches(s, pat) == 0 <==> Find(s, pat).None?
  {
    if Find(s, pat).Some? {
      SplitOnSome(s, pat, Find(s, pat).value);
    }
  }

  /** The total is zero exactly when no string holds the pattern. */
  lemma {:induction false} MatchTotalZero(strings: seq<String>, pat: String)
    requires |pat| >= 1
    ensures MatchTotal(strings, pat) == 0 <==> forall k :: 0 <= k < |strings| ==> Find(strings[k], pat).None?
    decreases |strings|
  {
    if strings != [] {
      var init := strings[..|strings| - 1];
      MatchTotalZero(init, pat);
      CountMatchesZero(strings[|strings| - 1], pat);
      assert forall k :: 0 <= k < |init| ==> init[k] == strings[k];
    }
  }

  lemma {:induction false} MatchTotalAppend(a: seq<String>, b: seq<String>, pat: String)
    requires |pat| >= 1
    ensures MatchTotal(a + b, pat) == MatchTotal(a, pat) + MatchTotal(b, pat)
    decreases |b|
  {
    if b == [] {
      assert a + b == a;
    } else {
      assert (a + b)[..|a + b| - 1] == a + b[..|b| - 1];
      MatchTotalAppend(a, b[..|b| - 1], pat);
    }
  }

  /** The rows, columns and diagonals `xmax_counter` searches. */
  function Strings(input: String): seq<String>
    requires VerticalsOk(input)
  {
    Horizontals(input) + VerticalsOf(Flat(input), NRows(input)) + DiagonalsOf(Flat(input), NRows(input), NCols(input))
  }

  /** `xmax_counter`: the matches of `XMAS` and of `SAMX` over all the strings. */
  function XmasCounter(input: String): nat
    requires VerticalsOk(DropNewline(input))
  {
    var strings := Strings(DropNewline(input));
    MatchTotal(strings, "XMAS") + MatchTotal(strings, "SAMX")
  }

  /** The count adds up the rows, the columns and the diagonals, each read
      forwards (`XMAS`) and backwards (`SAMX`). */
  lemma XmasCounterParts(input: String)
    requires VerticalsOk(DropNewline(input))
    ensures var text := DropNewline(input);
      var rows, cols, diags := Horizontals(text), VerticalsOf(Flat(text), NRows(text)), DiagonalsOf(Flat(text), NRows(text), NCols(text));
      XmasCounter(input) == MatchTotal(rows, "XMAS") + MatchTotal(cols, "XMAS") + MatchTotal(diags, "XMAS")
        + MatchTotal(rows, "SAMX") + MatchTotal(cols, "SAMX") + MatchTotal(diags, "SAMX")
  {
    var text := DropNewline(input);
    var rows, cols, diags := Horizontals(text), VerticalsOf(Flat(text), NRows(text)), DiagonalsOf(Flat(text), NRows(text), NCols(text));
    MatchTotalAppend(rows + cols, diags, "XMAS");
    MatchTotalAppend(rows, cols, "XMAS");
    MatchTotalAppend(rows + cols, diags, "SAMX");
    MatchTotalAppend(rows, cols, "SAMX");
  }

  /** The count is zero exactly when no row, column or diagonal holds `XMAS`
      or `SAMX`. */
  lemma XmasCounterZero(input: String)
    requires VerticalsOk(DropNewline(input))
    ensures var strings := Strings(DropNewline(input));
      XmasCounter(input) == 0 <==>
        forall k :: 0 <= k < |strings| ==> Find(strings[k], "XMAS").None? && Find(strings[k], "SAMX").None?
  {
    var strings := Strings(DropNewline(input));
    MatchTotalZero(strings, "XMAS");
    MatchTotalZero(strings, "SAMX");
  }

  // Part 2

  /** What `part2` demands: when it scans at all (three lines or more), a
      non-empty first line and no line shorter than it (`char_at` unwraps). */
  predicate Part2Ok(lines: seq<String>) {
    |lines| >= 3 ==> |lines[0]| >= 1 && forall k :: 0 <= k < |lines| ==> |lines[k]| >= |lines[0]|
  }

  /** An interior cell of the scanned area. */
  predicate Interior(lines: seq<String>, y: nat, x: nat) {
    1 <= y < |lines| - 1 && |lines| >= 3 && 1 <= x < |lines[0]| - 1
  }

  /** The four corner patterns `part2` accepts around an `A`. */
  predicate XMas(lines: seq<String>, y: nat, x: nat)
    requires Part2Ok(lines) && Interior(lines, y, x)
  {
    var nw, ne, sw, se := lines[y - 1][x - 1], lines[y - 1][x + 1], lines[y + 1][x - 1], lines[y + 1][x + 1];
    lines[y][x] == 'A'
    && ((nw == 'M' && ne == 'S' && sw == 'M' && se == 'S')
      || (nw == 'S' && ne == 'S' && sw == 'M' && se == 'M')
      || (nw == 'M' && ne == 'M' && sw == 'S' && se == 'S')
      || (nw == 'S' && ne == 'M' && sw == 'S' && se == 'M'))
  }

  /** One `M` and one `S`. */
  predicate MAndS(a: char, b: char) {
    (a == 'M' && b == 'S') || (a == 'S' && b == 'M')
  }

  /** The four patterns are exactly an `A` whose two diagonals each read
      `MAS` in one direction or the other. */
  lemma XMasIff(lines: seq<String>, y: nat, x: nat)
    requires Part2Ok(lines) && Interior(lines, y, x)
    ensures XMas(lines, y, x) <==>
      lines[y][x] == 'A' && MAndS(lines[y - 1][x - 1], lines[y + 1][x + 1]) && MAndS(lines[y - 1][x + 1], lines[y + 1][x - 1])
  {
  }

  /** The crosses centred in row `y` at columns `1 <= x < m`. */
  function RowCrosses(lines: seq<String>, y: nat, m: nat): (r: nat)
    requires Part2Ok(lines) && 1 <= y < |lines| - 1 && m < |lines[0]|
    ensures r <= if m >= 1 then m - 1 else 0
  {
    if m <= 1 then 0
    else RowCrosses(lines, y, m - 1) + (if XMas(lines, y, m - 1) then 1 else 0)
  }

  /** The number of interior columns. */
  function InnerWidth(lines: seq<String>): nat
    requires |lines| >= 1
  {
    if |lines[0]| >= 2 then |lines[0]| - 2 else 0
  }

  /** The crosses centred in rows `1 <= y < m`. */
  function GridCrosses(lines: seq<String>, m: nat): (r: nat)
    requires Part2Ok(lines) && |lines| >= 3 && m < |lines|
    ensures r <= (if m >= 1 then m - 1 else 0) * InnerWidth(lines)
  {
    if m <= 1 then 0
    else
      var r := GridCrosses(lines, m - 1) + RowCrosses(lines, m - 1, |lines[0]| - 1);
      assert (m - 1) * InnerWidth(lines) == (m - 2) * InnerWidth(lines) + InnerWidth(lines);
      r
  }

  /** The crosses `part2` counts: over the interior cells only. */
  function Part2Count(lines: seq<String>): nat
    requires Part2Ok(lines)
  {
    if |lines| >= 3 then GridCrosses(lines, |lines| - 1) else 0
  }

  /** `part2`: visit every interior cell and count the crosses. */
  method Part2(input: String) returns (sum: nat)
    requires Part2Ok(Horizontals(DropNewline(input)))
    ensures sum == Part2Count(Horizontals(DropNewline(input)))
  {
    var lines := Horizontals(DropNewline(input));
    sum := 0;
    if |lines| >= 3 {
      var width := |lines[0]|;
      for y := 1 to |lines| - 1
        invariant sum == GridCrosses(lines, y)
      {
        var row := 0;
        if width >= 2 {
          for x := 1 to width - 1
            invariant row == RowCrosses(lines, y, x)
          {
            if lines[y][x] == 'A' {
              if (lines[y - 1][x - 1] == 'M' && lines[y - 1][x + 1] == 'S'
                  && lines[y + 1][x - 1] == 'M' && lines[y + 1][x + 1] == 'S')
                || (lines[y - 1][x - 1] == 'S' && lines[y - 1][x + 1] == 'S'
                  && lines[y + 1][x - 1] == 'M' && lines[y + 1][x + 1] == 'M')
                || (lines[y - 1][x - 1] == 'M' && lines[y - 1][x + 1] == 'M'
                  && lines[y + 1][x - 1] == 'S' && lines[y + 1][x + 1] == 'S')
                || (lines[y - 1][x - 1] == 'S' && lines[y - 1][x + 1] == 'M'
                  && lines[y + 1][x - 1] == 'S' && lines[y + 1][x + 1] == 'M')
              {
                row := row + 1;
              }
            }
          }
        }
        sum := sum + row;
      }
    }
  }

  /** `part2` counts at most one cross per interior cell, and none when the
      grid has fewer than three lines or three columns. */
  lemma Part2Bound(lines: seq<String>)
    requires Part2Ok(lines)
    ensures |lines| >= 3 ==> Part2Count(lines) <= (|lines| - 2) * InnerWidth(lines)
    ensures (|lines| < 3 || |lines[0]| < 3) ==> Part2Count(lines) == 0
  {
    if |lines| >= 3 && |lines[0]| < 3 {
      assert InnerWidth(lines) == 0;
      assert (|lines| - 2) * InnerWidth(lines) == 0;
    }
  }
}
