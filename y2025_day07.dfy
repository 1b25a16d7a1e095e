/** 2025 day 7: a tachyon beam enters at `S` and falls down the manifold; a
    splitter `^` below a beam sends it on to both sides. Part 1 draws the beams
    row by row and counts the splitters a beam hits; part 2 counts the
    timelines, a single particle taking either side at every splitter. */
module Y2025Day07 {
  import opened Text

  /** The manifold as rows of characters (`parse`: the lines of the input). */
  type Field = seq<String>

  function ParseField(input: String): (r: Field)
    ensures forall k :: 0 <= k < |r| ==> '\n' !in r[k]
  {
    Lines(input)
  }

  // Part 2: timelines

  /** The walk down from (row, col) never reads outside the field and never
      steps left of column 0 (`col - 1` on a `usize` panics there). */
  predicate CanWalk(field: Field, row: nat, col: nat)
    requires row < |field|
    decreases |field| - row
  {
    row == |field| - 1
    || (col < |field[row + 1]|
        && if field[row + 1][col] == '^' then col >= 1 && CanWalk(field, row + 1, col - 1) && CanWalk(field, row + 1, col + 1)
           else CanWalk(field, row + 1, col))
  }

  /** `count_timelines` without its cache: on the last row a timeline ends
      and adds `counter + 1`; a splitter below forks the walk into both
      neighbouring columns, anything else lets it fall straight down. */
  function CountTimelines(field: Field, row: nat, col: nat, counter: nat): (r: nat)
    requires row < |field| && CanWalk(field, row, col)
    ensures r >= counter + 1
    decreases |field| - row
  {
    if row == |field| - 1 then counter + 1
    else if field[row + 1][col] == '^' then
      CountTimelines(field, row + 1, col - 1, counter) + CountTimelines(field, row + 1, col + 1, counter)
    else CountTimelines(field, row + 1, col, counter)
  }

  /** Every timeline contributes `counter + 1`: the counter scales the count. */
  lemma {:induction false} CountTimelinesScales(field: Field, row: nat, col: nat, counter: nat)
    requires row < |field| && CanWalk(field, row, col)
    ensures CountTimelines(field, row, col, counter) == (counter + 1) * CountTimelines(field, row, col, 0)
    decreases |field| - row
  {
    if row < |field| - 1 {
      if field[row + 1][col] == '^' {
        CountTimelinesScales(field, row + 1, col - 1, counter);
        CountTimelinesScales(field, row + 1, col + 1, counter);
        Distribute(counter + 1, CountTimelines(field, row + 1, col - 1, 0), CountTimelines(field, row + 1, col + 1, 0));
      } else {
        CountTimelinesScales(field, row + 1, col, counter);
      }
    }
  }

  lemma Distribute(m: nat, a: nat, b: nat)
    ensures m * a + m * b == m * (a + b)
  {
  }

  /** The timelines from (row, col): the column of the particle on each row
      from `row` down to the last. */
  function Paths(field: Field, row: nat, col: nat): set<seq<nat>>
    requires row < |field| && CanWalk(field, row, col)
    decreases |field| - row
  {
    if row == |field| - 1 then {[col]}
    else if field[row + 1][col] == '^' then
      Prepend(col, Paths(field, row + 1, col - 1)) + Prepend(col, Paths(field, row + 1, col + 1))
    else Prepend(col, Paths(field, row + 1, col))
  }

  function Prepend(c: nat, ps: set<seq<nat>>): set<seq<nat>> {
    set p | p in ps :: [c] + p
  }

  lemma {:induction false} PrependCard(c: nat, ps: set<seq<nat>>)
    ensures |Prepend(c, ps)| == |ps|
    decreases |ps|
  {
    if ps != {} {
      var p :| p in ps;
      var rest := ps - {p};
      PrependCard(c, rest);
      assert Prepend(c, ps) == Prepend(c, rest) + {[c] + p};
      assert [c] + p !in Prepend(c, rest) by {
        forall q | q in rest ensures [c] + q != [c] + p {
          assert ([c] + q)[1..] == q;
          assert ([c] + p)[1..] == p;
        }
      }
    }
  }

  /** A timeline has one column per remaining row, starts at `col` and moves
      as the field says: one column aside at a splitter, straight otherwise. */
  predicate IsTimeline(field: Field, row: nat, p: seq<nat>)
    requires row < |field|
  {
    |p| == |field| - row
    && forall i :: 0 <= i < |p| - 1 ==> Step(field, row + i + 1, p[i], p[i + 1])
  }

  /** One move onto row `row`: aside at a splitter, straight down otherwise. */
  predicate Step(field: Field, row: nat, from: nat, to: nat)
    requires row < |field|
  {
    from < |field[row]|
    && if field[row][from] == '^' then to + 1 == from || to == from + 1 else to == from
  }

  lemma {:induction false} PathsAreTimelines(field: Field, row: nat, col: nat)
    requires row < |field| && CanWalk(field, row, col)
    ensures forall p :: p in Paths(field, row, col) ==> |p| >= 1 && p[0] == col && IsTimeline(field, row, p)
    decreases |field| - row, 1
  {
    if row < |field| - 1 {
      forall p | p in Paths(field, row, col) ensures |p| >= 1 && p[0] == col && IsTimeline(field, row, p) {
        if field[row + 1][col] == '^' {
          if p in Prepend(col, Paths(field, row + 1, col - 1)) {
            PrependTimeline(field, row, col, col - 1, p);
          } else {
            PrependTimeline(field, row, col, col + 1, p);
          }
        } else {
          PrependTimeline(field, row, col, col, p);
        }
      }
    }
  }

  lemma PrependTimeline(field: Field, row: nat, col: nat, n: nat, p: seq<nat>)
    requires row + 1 < |field| && CanWalk(field, row + 1, n) && Step(field, row + 1, col, n)
    requires p in Prepend(col, Paths(field, row + 1, n))
    ensures |p| >= 1 && p[0] == col && IsTimeline(field, row, p)
    decreases |field| - row, 0
  {
    PathsAreTimelines(field, row + 1, n);
    var q :| q in Paths(field, row + 1, n) && p == [col] + q;
    forall i | 0 <= i < |p| - 1 ensures Step(field, row + i + 1, p[i], p[i + 1]) {
      if i > 0 {
        assert p[i] == q[i - 1] && p[i + 1] == q[i];
        assert row + i + 1 == (row + 1) + (i - 1) + 1;
      }
    }
  }

  /** Conversely, every timeline the field allows is one of the paths. */
  lemma {:induction false} TimelinesArePaths(field: Field, row: nat, col: nat, p: seq<nat>)
    requires row < |field| && CanWalk(field, row, col)
    requires |p| >= 1 && p[0] == col && IsTimeline(field, row, p)
    ensures p in Paths(field, row, col)
    decreases |field| - row
  {
    if row < |field| - 1 {
      var q := p[1..];
      assert Step(field, row + 1, p[0], p[1]);
      assert IsTimeline(field, row + 1, q) by {
        forall i | 0 <= i < |q| - 1 ensures Step(field, row + 1 + i + 1, q[i], q[i + 1]) {
          assert q[i] == p[i + 1] && q[i + 1] == p[i + 2];
          assert Step(field, row + (i + 1) + 1, p[i + 1], p[i + 2]);
        }
      }
      TimelinesArePaths(field, row + 1, p[1], q);
      assert p == [col] + q;
      assert p in Prepend(col, Paths(field, row + 1, p[1]));
      if field[row + 1][col] == '^' {
        assert p[1] == col - 1 || p[1] == col + 1;
        assert Paths(field, row, col) == Prepend(col, Paths(field, row + 1, col - 1)) + Prepend(col, Paths(field, row + 1, col + 1));
      } else {
        assert p[1] == col;
      }
    } else {
      assert p == [col];
    }
  }

  /** The two sides of a split hold different timelines. */
  lemma SidesDisjoint(field: Field, row: nat, col: nat)
    requires row + 1 < |field| && col >= 1
    requires CanWalk(field, row + 1, col - 1) && CanWalk(field, row + 1, col + 1)
    ensures Prepend(col, Paths(field, row + 1, col - 1)) * Prepend(col, Paths(field, row + 1, col + 1)) == {}
  {
    PathsAreTimelines(field, row + 1, col - 1);
    PathsAreTimelines(field, row + 1, col + 1);
    var right := Prepend(col, Paths(field, row + 1, col + 1));
    forall q | q in Paths(field, row + 1, col - 1) ensures [col] + q !in right {
      assert ([col] + q)[1] == col - 1;
    }
  }

  /** `count_timelines(field, pos, 0)` is the number of distinct timelines. */
  lemma {:induction false} CountTimelinesIsPaths(field: Field, row: nat, col: nat)
    requires row < |field| && CanWalk(field, row, col)
    ensures CountTimelines(field, row, col, 0) == |Paths(field, row, col)|
    decreases |field| - row
  {
    if row < |field| - 1 {
      if field[row + 1][col] == '^' {
        CountTimelinesIsPaths(field, row + 1, col - 1);
        CountTimelinesIsPaths(field, row + 1, col + 1);
        PrependCard(col, Paths(field, row + 1, col - 1));
        PrependCard(col, Paths(field, row + 1, col + 1));
        SidesDisjoint(field, row, col);
        DisjointUnionCard(Prepend(col, Paths(field, row + 1, col - 1)), Prepend(col, Paths(field, row + 1, col + 1)));
      } else {
        CountTimelinesIsPaths(field, row + 1, col);
        PrependCard(col, Paths(field, row + 1, col));
      }
    }
  }

  lemma {:induction false} DisjointUnionCard(a: set<seq<nat>>, b: set<seq<nat>>)
    requires a * b == {}
    ensures |a + b| == |a| + |b|
    decreases |a|
  {
    if a != {} {
      var x :| x in a;
      DisjointUnionCard(a - {x}, b);
      assert (a - {x}) + b + {x} == a + b;
    }
  }

  // Part 1: drawing the beams

  /** A beam, or the entry point, in the cell above. */
  predicate Lit(c: char) {
    c == 'S' || c == '|'
  }

  /** A splitter diagonally above cell `i`, on either side. */
  predicate SplitterBeside(above: String, i: nat) {
    (0 < i <= |above| && above[i - 1] == '^') || (i + 1 < |above| && above[i + 1] == '^')
  }

  /** Every cell that is not a splitter has a cell above it (`get(i).unwrap()`). */
  predicate Covers(above: String, now: String) {
    forall i :: 0 <= i < |now| && now[i] != '^' ==> i < |above|
  }

  /** `process_line`: splitters stay, a cell under a beam or beside a splitter
      above gets a beam, anything else becomes empty space. */
  function ProcessLine(above: String, now: String): (r: String)
    requires Covers(above, now)
    ensures |r| == |now|
    ensures forall i :: 0 <= i < |now| ==> (r[i] == '^' <==> now[i] == '^')
    ensures forall i :: 0 <= i < |now| ==>
      (r[i] == '|' <==> now[i] != '^' && (Lit(above[i]) || SplitterBeside(above, i)))
    ensures forall i :: 0 <= i < |now| ==> r[i] == '^' || r[i] == '|' || r[i] == '.'
  {
    seq(|now|, i requires 0 <= i < |now| =>
      if now[i] == '^' then '^'
      else if Lit(above[i]) then '|'
      else if SplitterBeside(above, i) then '|'
      else '.')
  }

  /** Only the splitters of the current line matter to `process_line`. */
  lemma ProcessLineSplittersOnly(above: String, a: String, b: String)
    requires Covers(above, a) && |a| == |b|
    requires forall i :: 0 <= i < |a| ==> (a[i] == '^' <==> b[i] == '^')
    ensures Covers(above, b) && ProcessLine(above, a) == ProcessLine(above, b)
  {
  }

  /** Processing a processed line again changes nothing. */
  lemma ProcessLineIdempotent(above: String, now: String)
    requires Covers(above, now)
    ensures Covers(above, ProcessLine(above, now))
    ensures ProcessLine(above, ProcessLine(above, now)) == ProcessLine(above, now)
  {
    ProcessLineSplittersOnly(above, now, ProcessLine(above, now));
  }

  /** Each line covers the one below it. */
  predicate Chained(lines: seq<String>) {
    forall k :: 1 <= k < |lines| ==> Covers(lines[k - 1], lines[k])
  }

  /** `process_beam_part1`: the first line as it is, and every later line
      processed against the already processed line above it. */
  function Beams(lines: seq<String>): (r: seq<String>)
    requires Chained(lines)
    ensures |r| == |lines|
    ensures forall k :: 0 <= k < |lines| ==> |r[k]| == |lines[k]|
    ensures |lines| >= 1 ==> r[0] == lines[0]
    ensures forall k :: 1 <= k < |lines| ==> Covers(r[k - 1], lines[k]) && r[k] == ProcessLine(r[k - 1], lines[k])
  {
    if |lines| <= 1 then lines
    else
      var last := |lines| - 1;
      var init := lines[..last];
      assert Chained(init) by {
        forall k | 1 <= k < |init| ensures Covers(init[k - 1], init[k]) {
          assert init[k - 1] == lines[k - 1] && init[k] == lines[k];
        }
      }
      var p := Beams(init);
      p + [ProcessLine(p[last - 1], lines[last])]
  }

  function ProcessBeamPart1(input: String): seq<String>
    requires Chained(Lines(input))
  {
    Beams(Lines(input))
  }

  /** The splitters of `now` that a beam in `prev` hits. */
  predicate Hit(prev: String, now: String, i: nat)
    requires i < |now| <= |prev|
  {
    now[i] == '^' && prev[i] == '|'
  }

  /** The inner count of `count_splittings` for one pair of lines. */
  function SplitsIn(prev: String, now: String): (r: nat)
    requires |now| <= |prev|
    ensures r <= |now|
  {
    if now == [] then 0
    else
      var i := |now| - 1;
      SplitsIn(prev, now[..i]) + if Hit(prev, now, i) then 1 else 0
  }

  /** Each line is no longer than the one above (`line_prev[i]`). */
  predicate Narrowing(field: seq<String>) {
    forall k :: 1 <= k < |field| ==> |field[k]| <= |field[k - 1]|
  }

  /** `count_splittings`: over every pair of neighbouring lines. */
  function CountSplittings(field: seq<String>): nat
    requires Narrowing(field)
  {
    if |field| <= 1 then 0
    else
      var last := |field| - 1;
      assert Narrowing(field[..last]) by {
        forall k | 1 <= k < last ensures |field[..last][k]| <= |field[..last][k - 1]| {
        }
      }
      CountSplittings(field[..last]) + SplitsIn(field[last - 1], field[last])
  }

  /** The positions of the splitters hit, as a set. */
  function HitSet(prev: String, now: String): set<nat>
    requires |now| <= |prev|
  {
    set i: nat | i < |now| && Hit(prev, now, i)
  }

  /** The pair count is the number of hit splitters. */
  lemma {:induction false} SplitsInCard(prev: String, now: String)
    requires |now| <= |prev|
    ensures SplitsIn(prev, now) == |HitSet(prev, now)|
  {
    if now != [] {
      var i := |now| - 1;
      var init := now[..i];
      SplitsInCard(prev, init);
      if Hit(prev, now, i) {
        assert HitSet(prev, now) == HitSet(prev, init) + {i};
      } else {
        assert HitSet(prev, now) == HitSet(prev, init);
      }
    }
  }

  /** On a drawn field, a splitter that is hit always sends beams to both
      sides, wherever there is room: the split is visible one line further down. */
  lemma HitSplitterLightsBelow(lines: seq<String>, k: nat, i: nat)
    requires Chained(lines) && 1 <= k && k + 1 < |lines|
    requires i < |lines[k]| <= |lines[k - 1]|
    requires Hit(Beams(lines)[k - 1], Beams(lines)[k], i)
    ensures i + 1 < |lines[k + 1]| && lines[k + 1][i + 1] != '^' ==> Beams(lines)[k + 1][i + 1] == '|'
    ensures 0 < i && i - 1 < |lines[k + 1]| && lines[k + 1][i - 1] != '^' ==> Beams(lines)[k + 1][i - 1] == '|'
  {
    var r := Beams(lines);
    assert r[k][i] == '^';
    if i + 1 < |lines[k + 1]| && lines[k + 1][i + 1] != '^' {
      assert SplitterBeside(r[k], i + 1);
    }
    if 0 < i && i - 1 < |lines[k + 1]| && lines[k + 1][i - 1] != '^' {
      assert i - 1 + 1 == i;
    }
  }
}
