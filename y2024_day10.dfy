/** Hoof It: a topographic map of heights 0 to 9; a hiking trail climbs from
    a trailhead (height 0) to height 9 one unit per orthogonal step. Part 1
    scores a trailhead by the number of summits it reaches, part 2 by the
    number of distinct trails. */
module Y2024Day10 {
  import opened Wrappers
  import opened Text

  /** A position on the map; column `x`, row `y`. */
  datatype Coord = Coord(x: nat, y: nat)

  /** The map, row by row; a non-digit cell has height 255 (`u8::MAX`). */
  type Field = seq<seq<nat>>

  /** Every row as wide as the first. */
  predicate Rectangular(field: Field) {
    forall y :: 0 <= y < |field| ==> |field[y]| == |field[0]|
  }

  predicate InBounds(field: Field, c: Coord) {
    c.y < |field| && c.x < |field[c.y]|
  }

  function Height(field: Field, c: Coord): nat
    requires InBounds(field, c)
  {
    field[c.y][c.x]
  }

  // Parsing

  /** A digit's value; anything else is `u8::MAX`. */
  function CellHeight(c: char): (h: nat)
    ensures h <= 9 <==> IsDigit(c)
    ensures IsDigit(c) ==> h == DigitOf(c)
  {
    if IsDigit(c) then DigitOf(c) else 255
  }

  /** `parse`: one row per line, one height per character. */
  function Parse(input: String): (field: Field)
    ensures |field| == |Lines(input)|
    ensures forall y :: 0 <= y < |field| ==> |field[y]| == |Lines(input)[y]|
  {
    var lines := Lines(input);
    seq(|lines|, y requires 0 <= y < |lines| =>
      seq(|lines[y]|, x requires 0 <= x < |lines[y]| => CellHeight(lines[y][x])))
  }

  /** Every cell of the parsed map holds its digit's value, and only digit
      cells are climbable heights; equal-length lines give a rectangular map. */
  lemma ParseMeaning(input: String)
    ensures forall y, x :: 0 <= y < |Lines(input)| && 0 <= x < |Lines(input)[y]| ==>
      (Parse(input)[y][x] <= 9 <==> IsDigit(Lines(input)[y][x]))
    ensures forall y, x :: 0 <= y < |Lines(input)| && 0 <= x < |Lines(input)[y]| && IsDigit(Lines(input)[y][x]) ==>
      Parse(input)[y][x] == DigitOf(Lines(input)[y][x])
    ensures (forall y :: 0 <= y < |Lines(input)| ==> |Lines(input)[y]| == |Lines(input)[0]|) ==> Rectangular(Parse(input))
  {
  }

  // Looking around

  /** `at`: the height at a position, `None` off the map. */
  function At(field: Field, c: Coord): (r: Option<nat>)
    ensures r.Some? <==> InBounds(field, c)
    ensures r.Some? ==> r.value == Height(field, c)
  {
    if c.y < |field| && c.x < |field[c.y]| then Some(field[c.y][c.x]) else None
  }

  /** One orthogonal step apart. */
  predicate Adjacent(p: Coord, q: Coord) {
    (p.x == q.x && (p.y == q.y + 1 || q.y == p.y + 1)) ||
    (p.y == q.y && (p.x == q.x + 1 || q.x == p.x + 1))
  }

  /** Above, below, left and right, as signed pairs. */
  function Candidates(c: Coord): seq<(int, int)> {
    [(c.x, c.y - 1), (c.x, c.y + 1), (c.x - 1, c.y), (c.x + 1, c.y)]
  }

  /** The candidates inside `[0, width) × [0, height)`, in order. */
  function KeepInside(cs: seq<(int, int)>, width: nat, height: nat): (r: seq<Coord>)
    ensures |r| <= |cs|
    ensures forall q :: q in r <==> (q.x, q.y) in cs && q.x < width && q.y < height
  {
    if cs == [] then []
    else
      var (x, y) := cs[0];
      var rest := KeepInside(cs[1..], width, height);
      assert forall p :: p in cs <==> p == cs[0] || p in cs[1..];
      if 0 <= x < width && 0 <= y < height then [Coord(x, y)] + rest else rest
  }

  /** `neighbours`: above, below, left, right, each kept when it lies within
      the first row's width and the number of rows. The source panics on a
      map without rows. */
  function Neighbours(field: Field, c: Coord): (r: seq<Coord>)
    requires |field| >= 1
    ensures |r| <= 4
  {
    KeepInside(Candidates(c), |field[0]|, |field|)
  }

  /** The neighbours are exactly the adjacent positions on the map. */
  lemma NeighboursMeaning(field: Field, c: Coord, q: Coord)
    requires |field| >= 1 && Rectangular(field)
    ensures q in Neighbours(field, c) <==> Adjacent(c, q) && InBounds(field, q)
  {
    var cs := Candidates(c);
    assert (q.x, q.y) in cs <==> Adjacent(c, q) by {
      assert forall p :: p in cs <==> p == cs[0] || p == cs[1] || p == cs[2] || p == cs[3];
    }
  }

  // Hiking

  /** The neighbours one unit higher than `h` and not yet on the path, in
      order (the two `filter`s of `traverse`). */
  function Climbable(field: Field, ns: seq<Coord>, h: nat, path: seq<Coord>): (r: seq<Coord>)
    requires forall n :: n in ns ==> InBounds(field, n)
    ensures forall n :: n in r <==> n in ns && Height(field, n) == h + 1 && n !in path
  {
    if ns == [] then []
    else
      var rest := Climbable(field, ns[1..], h, path);
      assert forall n :: n in ns <==> n == ns[0] || n in ns[1..];
      if Height(field, ns[0]) == h + 1 && ns[0] !in path then [ns[0]] + rest else rest
  }

  /** The positions one step further up from `pos` along a path. */
  function Nexts(field: Field, path: seq<Coord>, pos: Coord): (r: seq<Coord>)
    requires Rectangular(field) && InBounds(field, pos)
    ensures forall n :: n in r ==> InBounds(field, n) && Height(field, n) == Height(field, pos) + 1
  {
    var ns := Neighbours(field, pos);
    forall n | n in ns ensures InBounds(field, n) {
      NeighboursMeaning(field, pos, n);
    }
    Climbable(field, ns, Height(field, pos), path)
  }

  /** Every hike that extends `visited` with `pos` and climbs to 9: the
      trails the search is meant to find. */
  function Hikes(field: Field, visited: seq<Coord>, pos: Coord): seq<seq<Coord>>
    requires Rectangular(field) && InBounds(field, pos) && Height(field, pos) <= 9
    decreases 10 - Height(field, pos), 0, 0
  {
    var path := visited + [pos];
    var h := Height(field, pos);
    if h == 9 then [path]
    else HikesEach(field, path, Nexts(field, path, pos), h + 1)
  }

  /** The hikes through each of `nexts`, in order. */
  function HikesEach(field: Field, path: seq<Coord>, nexts: seq<Coord>, level: nat): seq<seq<Coord>>
    requires Rectangular(field) && level <= 9
    requires forall n :: n in nexts ==> InBounds(field, n) && Height(field, n) == level
    decreases 10 - level, 1, |nexts|
  {
    if nexts == [] then []
    else
      var k := |nexts| - 1;
      HikesEach(field, path, nexts[..k], level) + Hikes(field, path, nexts[k])
  }

  /** The hike ends on a summit: `at(hike.last()) == Some(9)`. */
  predicate Top(field: Field, hike: seq<Coord>) {
    |hike| >= 1 && At(field, hike[|hike| - 1]) == Some(9)
  }

  /** The hikes that end on a summit, in order. */
  function ReachingTop(field: Field, hikes: seq<seq<Coord>>): seq<seq<Coord>> {
    if hikes == [] then []
    else
      var k := |hikes| - 1;
      ReachingTop(field, hikes[..k]) + (if Top(field, hikes[k]) then [hikes[k]] else [])
  }

  /** `traverse`: the recursion of the source, which threads the hikes found
      so far through the calls and filters partial paths out again after each
      fork. */
  function Traverse(field: Field, hikes: seq<seq<Coord>>, visited: seq<Coord>, pos: Coord): seq<seq<Coord>>
    requires Rectangular(field) && InBounds(field, pos) && Height(field, pos) <= 9
    decreases 10 - Height(field, pos), 0, 0
  {
    var path := visited + [pos];
    var h := Height(field, pos);
    if h == 9 then hikes + [path]
    else
      var valid := Nexts(field, path, pos);
      if |valid| == 1 then Traverse(field, hikes, path, valid[0])
      else hikes + ReachingTop(field, TraverseEach(field, hikes + [path], path, valid, h + 1))
  }

  /** The `flat_map` of `traverse` over the next positions. */
  function TraverseEach(field: Field, hikes: seq<seq<Coord>>, path: seq<Coord>, nexts: seq<Coord>, level: nat): seq<seq<Coord>>
    requires Rectangular(field) && level <= 9
    requires forall n :: n in nexts ==> InBounds(field, n) && Height(field, n) == level
    decreases 10 - level, 1, |nexts|
  {
    if nexts == [] then []
    else
      var k := |nexts| - 1;
      TraverseEach(field, hikes, path, nexts[..k], level) + Traverse(field, hikes, path, nexts[k])
  }

  /** From `from` on, the hike stays on the map, climbs one unit per step
      starting at `h0`, and moves to an adjacent position each step. */
  predicate Trail(field: Field, hike: seq<Coord>, from: nat, h0: nat) {
    from < |hike| &&
    (forall k :: from <= k < |hike| ==> InBounds(field, hike[k]) && Height(field, hike[k]) + from == h0 + k) &&
    (forall k :: from <= k < |hike| - 1 ==> Adjacent(hike[k], hike[k + 1]))
  }

  lemma {:induction false} ReachingTopAppend(field: Field, a: seq<seq<Coord>>, b: seq<seq<Coord>>)
    ensures ReachingTop(field, a + b) == ReachingTop(field, a) + ReachingTop(field, b)
    decreases |b|
  {
    if b == [] {
      assert a + b == a;
    } else {
      var k := |b| - 1;
      assert (a + b)[..|a + b| - 1] == a + b[..k];
      ReachingTopAppend(field, a, b[..k]);
    }
  }

  lemma {:induction false} ReachingTopNone(field: Field, hikes: seq<seq<Coord>>)
    requires forall k :: 0 <= k < |hikes| ==> !Top(field, hikes[k])
    ensures ReachingTop(field, hikes) == []
  {
    if hikes != [] {
      ReachingTopNone(field, hikes[..|hikes| - 1]);
    }
  }

  lemma {:induction false} ReachingTopAll(field: Field, hikes: seq<seq<Coord>>)
    requires forall k :: 0 <= k < |hikes| ==> Top(field, hikes[k])
    ensures ReachingTop(field, hikes) == hikes
  {
    if hikes != [] {
      var n := |hikes| - 1;
      assert forall k :: 0 <= k < n ==> hikes[..n][k] == hikes[k];
      ReachingTopAll(field, hikes[..n]);
      assert hikes == hikes[..n] + [hikes[n]];
    }
  }

  /** The shape of every hike: it starts with `visited` and `pos`, and from
      `pos` on it is a trail up to height 9. */
  lemma {:induction false} HikesShape(field: Field, visited: seq<Coord>, pos: Coord, hike: seq<Coord>)
    requires Rectangular(field) && InBounds(field, pos) && Height(field, pos) <= 9
    requires hike in Hikes(field, visited, pos)
    ensures |hike| + Height(field, pos) == |visited| + 10
    ensures hike[..|visited|] == visited && hike[|visited|] == pos
    ensures Trail(field, hike, |visited|, Height(field, pos))
    decreases 10 - Height(field, pos), 0, 0
  {
    if Height(field, pos) < 9 {
      HikesUnfold(field, visited, pos);
      var n := HikesEachShape(field, visited + [pos], Nexts(field, visited + [pos], pos), Height(field, pos) + 1, hike);
      ShapeExtend(field, visited, pos, n, hike);
    } else {
      SummitShape(field, visited, pos, hike);
    }
  }

  lemma SummitShape(field: Field, visited: seq<Coord>, pos: Coord, hike: seq<Coord>)
    requires Rectangular(field) && InBounds(field, pos) && Height(field, pos) == 9
    requires hike in Hikes(field, visited, pos)
    ensures |hike| + Height(field, pos) == |visited| + 10
    ensures hike[..|visited|] == visited && hike[|visited|] == pos
    ensures Trail(field, hike, |visited|, Height(field, pos))
  {
    assert hike == visited + [pos];
  }

  lemma HikesUnfold(field: Field, visited: seq<Coord>, pos: Coord)
    requires Rectangular(field) && InBounds(field, pos) && Height(field, pos) < 9
    ensures Hikes(field, visited, pos) ==
      HikesEach(field, visited + [pos], Nexts(field, visited + [pos], pos), Height(field, pos) + 1)
  {
  }

  /** A trail from a next position, preceded by `pos`, is a trail from
      `pos`. */
  lemma ShapeExtend(field: Field, visited: seq<Coord>, pos: Coord, n: Coord, hike: seq<Coord>)
    requires Rectangular(field) && InBounds(field, pos) && Height(field, pos) < 9
    requires n in Nexts(field, visited + [pos], pos)
    requires |hike| > |visited| + 1 && hike[..|visited| + 1] == visited + [pos] && hike[|visited| + 1] == n
    requires |hike| + Height(field, pos) + 1 == |visited| + 11
    requires Trail(field, hike, |visited| + 1, Height(field, pos) + 1)
    ensures |hike| + Height(field, pos) == |visited| + 10
    ensures hike[..|visited|] == visited && hike[|visited|] == pos
    ensures Trail(field, hike, |visited|, Height(field, pos))
  {
    var path := visited + [pos];
    assert hike[..|path|][..|visited|] == hike[..|visited|];
    assert hike[|visited|] == hike[..|path|][|visited|];
    NeighboursMeaning(field, pos, n);
  }

  lemma {:induction false} HikesEachShape(field: Field, path: seq<Coord>, nexts: seq<Coord>, level: nat, hike: seq<Coord>)
    returns (n: Coord)
    requires Rectangular(field) && level <= 9
    requires forall n :: n in nexts ==> InBounds(field, n) && Height(field, n) == level
    requires hike in HikesEach(field, path, nexts, level)
    ensures n in nexts && |hike| > |path| && hike[|path|] == n
    ensures |hike| + level == |path| + 10
    ensures hike[..|path|] == path
    ensures Trail(field, hike, |path|, level)
    decreases 10 - level, 1, |nexts|
  {
    var k := |nexts| - 1;
    if hike in Hikes(field, path, nexts[k]) {
      HikesShape(field, path, nexts[k], hike);
      n := nexts[k];
    } else {
      n := HikesEachShape(field, path, nexts[..k], level, hike);
    }
  }

  /** Every trail that continues `visited` from `pos` up to height 9 is among
      the hikes, provided nothing visited is as high as `pos`. */
  lemma {:induction false} HikesComplete(field: Field, visited: seq<Coord>, pos: Coord, hike: seq<Coord>)
    requires Rectangular(field) && InBounds(field, pos) && Height(field, pos) <= 9
    requires forall k :: 0 <= k < |visited| ==> InBounds(field, visited[k]) && Height(field, visited[k]) < Height(field, pos)
    requires |hike| + Height(field, pos) == |visited| + 10
    requires hike[..|visited|] == visited && hike[|visited|] == pos
    requires Trail(field, hike, |visited|, Height(field, pos))
    ensures hike in Hikes(field, visited, pos)
    decreases 10 - Height(field, pos), 0, 0
  {
    if Height(field, pos) == 9 {
      SummitComplete(field, visited, pos, hike);
    } else {
      ClimbStep(field, visited, pos, hike);
      HikesUnfold(field, visited, pos);
      HikesEachComplete(field, visited + [pos], Nexts(field, visited + [pos], pos), Height(field, pos) + 1, hike);
    }
  }

  lemma SummitComplete(field: Field, visited: seq<Coord>, pos: Coord, hike: seq<Coord>)
    requires Rectangular(field) && InBounds(field, pos) && Height(field, pos) == 9
    requires |hike| == |visited| + 1 && hike[..|visited|] == visited && hike[|visited|] == pos
    ensures hike in Hikes(field, visited, pos)
  {
    assert hike == visited + [pos];
  }

  /** The position after `pos` on a trail is one of the next positions, and
      the trail goes on from there. */
  lemma ClimbStep(field: Field, visited: seq<Coord>, pos: Coord, hike: seq<Coord>)
    requires Rectangular(field) && InBounds(field, pos) && Height(field, pos) < 9
    requires forall k :: 0 <= k < |visited| ==> InBounds(field, visited[k]) && Height(field, visited[k]) < Height(field, pos)
    requires |hike| + Height(field, pos) == |visited| + 10
    requires hike[..|visited|] == visited && hike[|visited|] == pos
    requires Trail(field, hike, |visited|, Height(field, pos))
    ensures hike[..|visited| + 1] == visited + [pos]
    ensures hike[|visited| + 1] in Nexts(field, visited + [pos], pos)
    ensures forall k :: 0 <= k < |visited| + 1 ==> InBounds(field, (visited + [pos])[k]) && Height(field, (visited + [pos])[k]) < Height(field, pos) + 1
    ensures Trail(field, hike, |visited| + 1, Height(field, pos) + 1)
  {
    var path := visited + [pos];
    var h := Height(field, pos);
    assert hike[..|path|] == path;
    var n := hike[|path|];
    NeighboursMeaning(field, pos, n);
    assert n !in path by {
      forall k | 0 <= k < |path| ensures path[k] != n {
        assert Height(field, path[k]) <= h;
      }
    }
  }

  lemma {:induction false} HikesEachComplete(field: Field, path: seq<Coord>, nexts: seq<Coord>, level: nat, hike: seq<Coord>)
    requires Rectangular(field) && level <= 9
    requires forall n :: n in nexts ==> InBounds(field, n) && Height(field, n) == level
    requires forall k :: 0 <= k < |path| ==> InBounds(field, path[k]) && Height(field, path[k]) < level
    requires |hike| + level == |path| + 10
    requires hike[..|path|] == path && hike[|path|] in nexts
    requires Trail(field, hike, |path|, level)
    ensures hike in HikesEach(field, path, nexts, level)
    decreases 10 - level, 1, |nexts|
  {
    var k := |nexts| - 1;
    if hike[|path|] == nexts[k] {
      HikesComplete(field, path, nexts[k], hike);
    } else {
      HikesEachComplete(field, path, nexts[..k], level, hike);
    }
  }

  /** The hikes from a trailhead are exactly the trails from it: ten
      positions, each adjacent to the one before, at heights 0, 1, …, 9. */
  lemma TrailheadHikes(field: Field, head: Coord, hike: seq<Coord>)
    requires Rectangular(field) && InBounds(field, head) && Height(field, head) == 0
    ensures hike in Hikes(field, [], head) <==> |hike| == 10 && hike[0] == head && Trail(field, hike, 0, 0)
  {
    if hike in Hikes(field, [], head) {
      HikesShape(field, [], head, hike);
    }
    if |hike| == 10 && hike[0] == head && Trail(field, hike, 0, 0) {
      HikesComplete(field, [], head, hike);
    }
  }

  /** The threaded recursion of `traverse` returns the hikes it was given
      followed by exactly the hikes from `pos`, as long as none of the given
      ones ends on a summit. */
  lemma {:induction false} TraverseMeaning(field: Field, hikes: seq<seq<Coord>>, visited: seq<Coord>, pos: Coord)
    requires Rectangular(field) && InBounds(field, pos) && Height(field, pos) <= 9
    requires forall k :: 0 <= k < |hikes| ==> !Top(field, hikes[k])
    ensures Traverse(field, hikes, visited, pos) == hikes + Hikes(field, visited, pos)
    decreases 10 - Height(field, pos), 0, 1
  {
    var path := visited + [pos];
    if Height(field, pos) < 9 {
      if |Nexts(field, path, pos)| == 1 {
        TraverseOnward(field, hikes, visited, pos);
      } else {
        TraverseForks(field, hikes, visited, pos);
      }
    }
  }

  lemma {:induction false} TraverseOnward(field: Field, hikes: seq<seq<Coord>>, visited: seq<Coord>, pos: Coord)
    requires Rectangular(field) && InBounds(field, pos) && Height(field, pos) < 9
    requires |Nexts(field, visited + [pos], pos)| == 1
    requires forall k :: 0 <= k < |hikes| ==> !Top(field, hikes[k])
    ensures Traverse(field, hikes, visited, pos) == hikes + Hikes(field, visited, pos)
    decreases 10 - Height(field, pos), 0, 0
  {
    var path := visited + [pos];
    var h := Height(field, pos);
    var valid := Nexts(field, path, pos);
    HikesUnfold(field, visited, pos);
    assert Traverse(field, hikes, visited, pos) == Traverse(field, hikes, path, valid[0]);
    TraverseMeaning(field, hikes, path, valid[0]);
    assert valid == [valid[0]];
    HikesEachOne(field, path, valid[0], h + 1);
  }

  lemma {:induction false} TraverseForks(field: Field, hikes: seq<seq<Coord>>, visited: seq<Coord>, pos: Coord)
    requires Rectangular(field) && InBounds(field, pos) && Height(field, pos) < 9
    requires |Nexts(field, visited + [pos], pos)| != 1
    requires forall k :: 0 <= k < |hikes| ==> !Top(field, hikes[k])
    ensures Traverse(field, hikes, visited, pos) == hikes + Hikes(field, visited, pos)
    decreases 10 - Height(field, pos), 0, 0
  {
    HikesUnfold(field, visited, pos);
    TraverseFork(field, hikes, visited, pos);
    PathBelowTop(field, visited, pos);
    TraverseEachMeaning(field, hikes, visited + [pos], Nexts(field, visited + [pos], pos), Height(field, pos) + 1);
  }

  lemma PathBelowTop(field: Field, visited: seq<Coord>, pos: Coord)
    requires InBounds(field, pos) && Height(field, pos) < 9
    ensures |visited + [pos]| >= 1 && !Top(field, visited + [pos])
  {
    assert (visited + [pos])[|visited|] == pos;
  }

  /** `traverse` at a fork or a dead end. */
  lemma TraverseFork(field: Field, hikes: seq<seq<Coord>>, visited: seq<Coord>, pos: Coord)
    requires Rectangular(field) && InBounds(field, pos) && Height(field, pos) < 9
    requires |Nexts(field, visited + [pos], pos)| != 1
    ensures Traverse(field, hikes, visited, pos) == hikes + ReachingTop(field,
      TraverseEach(field, hikes + [visited + [pos]], visited + [pos], Nexts(field, visited + [pos], pos), Height(field, pos) + 1))
  {
  }

  lemma HikesEachOne(field: Field, path: seq<Coord>, n: Coord, level: nat)
    requires Rectangular(field) && level <= 9 && InBounds(field, n) && Height(field, n) == level
    ensures HikesEach(field, path, [n], level) == Hikes(field, path, n)
  {
    assert [n][..0] == [];
  }

  lemma {:induction false} TraverseEachMeaning(field: Field, hikes: seq<seq<Coord>>, path: seq<Coord>, nexts: seq<Coord>, level: nat)
    requires Rectangular(field) && 1 <= level <= 9 && |path| >= 1
    requires forall n :: n in nexts ==> InBounds(field, n) && Height(field, n) == level
    requires forall k :: 0 <= k < |hikes| ==> !Top(field, hikes[k])
    requires !Top(field, path)
    ensures ReachingTop(field, TraverseEach(field, hikes + [path], path, nexts, level)) == HikesEach(field, path, nexts, level)
    decreases 10 - level, 1, |nexts|
  {
    if nexts != [] {
      var k := |nexts| - 1;
      var more := hikes + [path];
      var before := TraverseEach(field, more, path, nexts[..k], level);
      TraverseEachMeaning(field, hikes, path, nexts[..k], level);
      BranchMeaning(field, hikes, path, nexts[k]);
      ReachingTopAppend(field, before, Traverse(field, more, path, nexts[k]));
    }
  }

  /** One branch of a fork, filtered, leaves exactly the hikes through it. */
  lemma {:induction false} BranchMeaning(field: Field, hikes: seq<seq<Coord>>, path: seq<Coord>, n: Coord)
    requires Rectangular(field) && InBounds(field, n) && 1 <= Height(field, n) <= 9 && |path| >= 1
    requires forall k :: 0 <= k < |hikes| ==> !Top(field, hikes[k])
    requires !Top(field, path)
    ensures ReachingTop(field, Traverse(field, hikes + [path], path, n)) == Hikes(field, path, n)
    decreases 10 - Height(field, n), 0, 2
  {
    var more := hikes + [path];
    TraverseMeaning(field, more, path, n);
    ReachingTopAppend(field, more, Hikes(field, path, n));
    ReachingTopNone(field, more);
    HikesReachTop(field, path, n);
  }

  /** Every hike ends on a summit. */
  lemma HikesReachTop(field: Field, path: seq<Coord>, n: Coord)
    requires Rectangular(field) && InBounds(field, n) && Height(field, n) <= 9
    ensures ReachingTop(field, Hikes(field, path, n)) == Hikes(field, path, n)
  {
    var hs := Hikes(field, path, n);
    forall j | 0 <= j < |hs| ensures Top(field, hs[j]) {
      HikesShape(field, path, n, hs[j]);
      assert Height(field, hs[j][|hs[j]| - 1]) == 9;
    }
    ReachingTopAll(field, hs);
  }

  // Scoring

  /** `trailheads`: every height-0 position, row by row. */
  function Trailheads(field: Field): (r: seq<Coord>)
    ensures forall c :: c in r ==> InBounds(field, c) && Height(field, c) == 0
  {
    if field == [] then []
    else
      var y := |field| - 1;
      var above := Trailheads(field[..y]);
      assert forall c :: c in above ==> InBounds(field, c) && Height(field, c) == 0 by {
        forall c | c in above ensures InBounds(field, c) && Height(field, c) == 0 {
          assert field[c.y] == field[..y][c.y];
        }
      }
      above + RowHeads(field[y], y, |field[y]|)
  }

  /** The height-0 positions among the first `n` of row `y`, left to right. */
  function RowHeads(row: seq<nat>, y: nat, n: nat): (r: seq<Coord>)
    requires n <= |row|
    ensures forall c :: c in r <==> c.y == y && c.x < n && row[c.x] == 0
    ensures forall i, j :: 0 <= i < j < |r| ==> r[i].x < r[j].x
  {
    if n == 0 then []
    else RowHeads(row, y, n - 1) + (if row[n - 1] == 0 then [Coord(n - 1, y)] else [])
  }

  /** Row-major order. */
  predicate Before(p: Coord, q: Coord) {
    p.y < q.y || (p.y == q.y && p.x < q.x)
  }

  /** The trailheads are every height-0 position, each once, in row-major
      order. */
  lemma {:induction false} TrailheadsMeaning(field: Field)
    ensures forall c :: c in Trailheads(field) <==> InBounds(field, c) && Height(field, c) == 0
    ensures forall i, j :: 0 <= i < j < |Trailheads(field)| ==> Before(Trailheads(field)[i], Trailheads(field)[j])
  {
    if field != [] {
      var y := |field| - 1;
      TrailheadsMeaning(field[..y]);
      var above, row := Trailheads(field[..y]), RowHeads(field[y], y, |field[y]|);
      forall c | InBounds(field, c) && Height(field, c) == 0 ensures c in above + row {
        if c.y < y {
          assert field[..y][c.y] == field[c.y];
        }
      }
      forall i, j | 0 <= i < j < |above + row| ensures Before((above + row)[i], (above + row)[j]) {
        if i < |above| && j >= |above| {
          assert above[i] in above;
          assert row[j - |above|] in row;
        } else if i >= |above| {
          assert (above + row)[i] == row[i - |above|];
          assert (above + row)[j] == row[j - |above|];
        }
      }
    }
  }

  /** `unique_hikes`: the number of distinct end positions. */
  function UniqueHikes(hikes: seq<seq<Coord>>): nat
    requires forall k :: 0 <= k < |hikes| ==> |hikes[k]| >= 1
  {
    |Ends(hikes)|
  }

  function Ends(hikes: seq<seq<Coord>>): set<Coord>
    requires forall k :: 0 <= k < |hikes| ==> |hikes[k]| >= 1
  {
    set k | 0 <= k < |hikes| :: hikes[k][|hikes[k]| - 1]
  }

  /** There are no more distinct summits than hikes. */
  lemma {:induction false} UniqueHikesBound(hikes: seq<seq<Coord>>)
    requires forall k :: 0 <= k < |hikes| ==> |hikes[k]| >= 1
    ensures UniqueHikes(hikes) <= |hikes|
  {
    if hikes != [] {
      var n := |hikes| - 1;
      UniqueHikesBound(hikes[..n]);
      EndsSnoc(hikes);
    }
  }

  lemma EndsSnoc(hikes: seq<seq<Coord>>)
    requires |hikes| >= 1 && forall k :: 0 <= k < |hikes| ==> |hikes[k]| >= 1
    ensures Ends(hikes) == Ends(hikes[..|hikes| - 1]) + {hikes[|hikes| - 1][|hikes[|hikes| - 1]| - 1]}
  {
    var n := |hikes| - 1;
    forall c | c in Ends(hikes) ensures c in Ends(hikes[..n]) + {hikes[n][|hikes[n]| - 1]} {
      var k :| 0 <= k < |hikes| && c == hikes[k][|hikes[k]| - 1];
      if k < n {
        assert hikes[..n][k] == hikes[k];
      }
    }
    forall c | c in Ends(hikes[..n]) ensures c in Ends(hikes) {
      var k :| 0 <= k < n && c == hikes[..n][k][|hikes[..n][k]| - 1];
      assert hikes[..n][k] == hikes[k];
    }
  }

  /** From a trailhead, `traverse` finds exactly the trails. */
  lemma TraverseFromHead(field: Field, head: Coord)
    requires Rectangular(field) && InBounds(field, head) && Height(field, head) == 0
    ensures Traverse(field, [], [], head) == Hikes(field, [], head)
    ensures forall k :: 0 <= k < |Hikes(field, [], head)| ==> |Hikes(field, [], head)[k]| == 10
  {
    TraverseMeaning(field, [], [], head);
    forall k | 0 <= k < |Hikes(field, [], head)| ensures |Hikes(field, [], head)[k]| == 10 {
      HikesShape(field, [], head, Hikes(field, [], head)[k]);
    }
  }

  /** One trailhead's score: distinct summits for part 1, trails for part 2. */
  function Score(field: Field, head: Coord, part2: bool): nat
    requires Rectangular(field) && InBounds(field, head) && Height(field, head) == 0
  {
    TraverseFromHead(field, head);
    var hikes := Traverse(field, [], [], head);
    if part2 then |hikes| else UniqueHikes(hikes)
  }

  function SumScores(field: Field, heads: seq<Coord>, part2: bool): nat
    requires Rectangular(field)
    requires forall c :: c in heads ==> InBounds(field, c) && Height(field, c) == 0
  {
    if heads == [] then 0
    else
      var k := |heads| - 1;
      SumScores(field, heads[..k], part2) + Score(field, heads[k], part2)
  }

  /** `traverse_all_heads`: the scores of all trailheads added up. */
  function TraverseAllHeads(field: Field, part2: bool): nat
    requires Rectangular(field)
  {
    SumScores(field, Trailheads(field), part2)
  }

  /** A trailhead's part-1 score never exceeds its part-2 score, so neither
      does the total. */
  lemma {:induction false} SumScoresOrdered(field: Field, heads: seq<Coord>)
    requires Rectangular(field)
    requires forall c :: c in heads ==> InBounds(field, c) && Height(field, c) == 0
    ensures SumScores(field, heads, false) <= SumScores(field, heads, true)
  {
    if heads != [] {
      var k := |heads| - 1;
      SumScoresOrdered(field, heads[..k]);
      TraverseFromHead(field, heads[k]);
      UniqueHikesBound(Traverse(field, [], [], heads[k]));
    }
  }

  lemma TraverseAllHeadsOrdered(field: Field)
    requires Rectangular(field)
    ensures TraverseAllHeads(field, false) <= TraverseAllHeads(field, true)
  {
    SumScoresOrdered(field, Trailheads(field));
  }
}
