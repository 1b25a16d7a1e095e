/** 2025 day 4: paper rolls on a grid; a roll is accessible when fewer than
    four of its eight neighbours hold a roll. */
module Y2025Day04 {
  import opened Text

  /** A grid cell (`Coord`, two `i64`): x is the column, y the row. */
  datatype Coord = Coord(x: int, y: int)

  /** The eight cells around `c`, in the order `num_neighbours` lists them:
      above, below, left, right, top left, top right, bottom left, bottom right. */
  function NeighbourCells(c: Coord): (r: seq<Coord>)
    ensures |r| == 8
  {
    [Coord(c.x, c.y - 1), Coord(c.x, c.y + 1), Coord(c.x - 1, c.y), Coord(c.x + 1, c.y),
     Coord(c.x - 1, c.y - 1), Coord(c.x + 1, c.y - 1), Coord(c.x - 1, c.y + 1), Coord(c.x + 1, c.y + 1)]
  }

  /** The two filters of `num_neighbours`: no negative coordinate, and a roll there. */
  predicate Counted(rolls: set<Coord>, n: Coord) {
    n.x >= 0 && n.y >= 0 && n in rolls
  }

  /** `.filter(..).filter(..).count()` over a list of cells. */
  function CountCounted(rolls: set<Coord>, cs: seq<Coord>): (r: nat)
    ensures r <= |cs|
  {
    if cs == [] then 0 else (if Counted(rolls, cs[0]) then 1 else 0) + CountCounted(rolls, cs[1..])
  }

  /** `num_neighbours`: how many of the eight surrounding cells hold a roll. */
  function NumNeighbours(rolls: set<Coord>, c: Coord): (r: nat)
    ensures r <= 8
  {
    CountCounted(rolls, NeighbourCells(c))
  }

  /** The cells that touch `c`, by their distance: an independent description of
      the eight neighbours. */
  predicate Touches(c: Coord, n: Coord) {
    n != c && -1 <= n.x - c.x <= 1 && -1 <= n.y - c.y <= 1
  }

  /** The rolls `num_neighbours` counts, as a set. */
  function AdjacentRolls(rolls: set<Coord>, c: Coord): set<Coord> {
    set n | n in rolls && n.x >= 0 && n.y >= 0 && Touches(c, n)
  }

  lemma NeighbourCellsTouch(c: Coord)
    ensures forall n :: n in NeighbourCells(c) <==> Touches(c, n)
    ensures forall i, j :: 0 <= i < j < 8 ==> NeighbourCells(c)[i] != NeighbourCells(c)[j]
  {
    forall n | Touches(c, n) ensures n in NeighbourCells(c) {
      var cs := NeighbourCells(c);
      if n.x == c.x - 1 {
        assert n == cs[2] || n == cs[4] || n == cs[6];
      } else if n.x == c.x {
        assert n == cs[0] || n == cs[1];
      } else {
        assert n == cs[3] || n == cs[5] || n == cs[7];
      }
    }
  }

  /** The elements of `cs` that are counted, as a set. */
  function CountedIn(rolls: set<Coord>, cs: seq<Coord>): set<Coord> {
    set n | n in cs && Counted(rolls, n)
  }

  /** Counting over a list without repeats is the size of the counted set. */
  lemma {:induction false} CountCountedCard(rolls: set<Coord>, cs: seq<Coord>)
    requires forall i, j :: 0 <= i < j < |cs| ==> cs[i] != cs[j]
    ensures CountCounted(rolls, cs) == |CountedIn(rolls, cs)|
  {
    if cs != [] {
      var tail := cs[1..];
      CountCountedCard(rolls, tail);
      assert cs[0] !in tail by {
        forall k | 0 <= k < |tail| ensures tail[k] != cs[0] {
          assert tail[k] == cs[k + 1];
        }
      }
      CountedInCons(rolls, cs);
    }
  }

  lemma CountedInCons(rolls: set<Coord>, cs: seq<Coord>)
    requires cs != [] && cs[0] !in cs[1..]
    ensures |CountedIn(rolls, cs)| == |CountedIn(rolls, cs[1..])| + (if Counted(rolls, cs[0]) then 1 else 0)
  {
    var here, there := CountedIn(rolls, cs), CountedIn(rolls, cs[1..]);
    assert cs == [cs[0]] + cs[1..];
    if Counted(rolls, cs[0]) {
      assert here == there + {cs[0]};
    } else {
      assert here == there;
    }
  }

  /** `num_neighbours` counts exactly the rolls touching the cell at non-negative coordinates. */
  lemma NumNeighboursIsAdjacent(rolls: set<Coord>, c: Coord)
    ensures NumNeighbours(rolls, c) == |AdjacentRolls(rolls, c)|
  {
    NeighbourCellsTouch(c);
    CountCountedCard(rolls, NeighbourCells(c));
    assert CountedIn(rolls, NeighbourCells(c)) == AdjacentRolls(rolls, c);
  }

  /** `toremove`: the rolls with fewer than four neighbours. */
  function Accessible(rolls: set<Coord>): (r: set<Coord>)
    ensures r <= rolls
    ensures forall c :: c in r <==> c in rolls && NumNeighbours(rolls, c) < 4
  {
    set c | c in rolls && NumNeighbours(rolls, c) < 4
  }

  /** The fold of `accessible_rolls_part1` over the rolls still to visit, in
      any order (a `HashSet` has none to rely on). */
  ghost function AccessibleFold(rolls: set<Coord>, rest: set<Coord>, naccessibles: nat): nat
    decreases |rest|
  {
    if rest == {} then naccessibles
    else
      var c :| c in rest;
      AccessibleFold(rolls, rest - {c}, if NumNeighbours(rolls, c) < 4 then naccessibles + 1 else naccessibles)
  }

  /** `accessible_rolls_part1`. */
  ghost function Part1(rolls: set<Coord>): nat {
    AccessibleFold(rolls, rolls, 0)
  }

  /** The rolls among `rest` that are accessible in `rolls`. */
  function AccessibleIn(rolls: set<Coord>, rest: set<Coord>): set<Coord> {
    set c | c in rest && NumNeighbours(rolls, c) < 4
  }

  /** Whatever order the fold visits the rolls in, it counts the accessible ones. */
  lemma {:induction false} AccessibleFoldCounts(rolls: set<Coord>, rest: set<Coord>, naccessibles: nat)
    ensures AccessibleFold(rolls, rest, naccessibles) == naccessibles + |AccessibleIn(rolls, rest)|
    decreases |rest|
  {
    if rest == {} {
      assert AccessibleIn(rolls, rest) == {};
    } else {
      var c :| c in rest && AccessibleFold(rolls, rest, naccessibles)
        == AccessibleFold(rolls, rest - {c}, if NumNeighbours(rolls, c) < 4 then naccessibles + 1 else naccessibles);
      var next := if NumNeighbours(rolls, c) < 4 then naccessibles + 1 else naccessibles;
      AccessibleFoldCounts(rolls, rest - {c}, next);
      AccessibleInMinus(rolls, rest, c);
    }
  }

  lemma AccessibleInMinus(rolls: set<Coord>, rest: set<Coord>, c: Coord)
    requires c in rest
    ensures |AccessibleIn(rolls, rest)| == |AccessibleIn(rolls, rest - {c})| + (if NumNeighbours(rolls, c) < 4 then 1 else 0)
  {
    var here, there := AccessibleIn(rolls, rest), AccessibleIn(rolls, rest - {c});
    if NumNeighbours(rolls, c) < 4 {
      assert here == there + {c};
    } else {
      assert here == there;
    }
  }

  /** Part 1 is the number of accessible rolls. */
  lemma Part1IsAccessible(rolls: set<Coord>)
    ensures Part1(rolls) == |Accessible(rolls)|
  {
    AccessibleFoldCounts(rolls, rolls, 0);
    assert AccessibleIn(rolls, rolls) == Accessible(rolls);
  }

  lemma RemoveShrinks(rolls: set<Coord>, t: set<Coord>)
    requires t <= rolls
    ensures |rolls - t| == |rolls| - |t|
  {
    assert rolls == (rolls - t) + t;
    assert (rolls - t) * t == {};
  }

  /** `accessible_rolls_part2`: remove every accessible roll at once and repeat
      until none is accessible, adding the removed counts to `previously_removed`. */
  function Part2(rolls: set<Coord>, previouslyRemoved: nat): nat
    decreases |rolls|
  {
    var toremove := Accessible(rolls);
    if |toremove| == 0 then previouslyRemoved
    else
      RemoveShrinks(rolls, toremove);
      Part2(rolls - toremove, previouslyRemoved + |toremove|)
  }

  /** The rolls left once nothing is accessible any more. */
  function Remaining(rolls: set<Coord>): set<Coord>
    decreases |rolls|
  {
    var toremove := Accessible(rolls);
    if |toremove| == 0 then rolls
    else
      RemoveShrinks(rolls, toremove);
      Remaining(rolls - toremove)
  }

  /** What is left is a subset of the rolls in which every roll has four
      neighbours or more, and part 2 counts everything else. */
  lemma {:induction false} Part2Removes(rolls: set<Coord>, previouslyRemoved: nat)
    ensures Remaining(rolls) <= rolls
    ensures Accessible(Remaining(rolls)) == {}
    ensures Part2(rolls, previouslyRemoved) == previouslyRemoved + |rolls| - |Remaining(rolls)|
    decreases |rolls|
  {
    var toremove := Accessible(rolls);
    if |toremove| > 0 {
      RemoveShrinks(rolls, toremove);
      Part2Removes(rolls - toremove, previouslyRemoved + |toremove|);
      SubsetCard(Remaining(rolls - toremove), rolls - toremove);
    }
  }

  lemma SubsetCard(a: set<Coord>, b: set<Coord>)
    requires a <= b
    ensures |a| <= |b|
  {
    RemoveShrinks(b, a);
  }

  /** Part 2 never counts more rolls than there are. */
  lemma Part2Bounds(rolls: set<Coord>, previouslyRemoved: nat)
    ensures previouslyRemoved <= Part2(rolls, previouslyRemoved) <= previouslyRemoved + |rolls|
  {
    Part2Removes(rolls, previouslyRemoved);
    SubsetCard(Remaining(rolls), rolls);
  }

  /** The first round of part 2 removes exactly the rolls part 1 counts. */
  lemma Part2AtLeastPart1(rolls: set<Coord>)
    ensures Part2(rolls, 0) >= Part1(rolls)
  {
    Part1IsAccessible(rolls);
    var toremove := Accessible(rolls);
    if |toremove| > 0 {
      RemoveShrinks(rolls, toremove);
      Part2Bounds(rolls - toremove, |toremove|);
    }
  }

  /** The `'@'` cells of one line, at row `y`. */
  function RowRolls(line: String, y: int): (r: set<Coord>)
    ensures forall c :: c in r <==> c.y == y && 0 <= c.x < |line| && line[c.x] == '@'
  {
    if line == [] then {}
    else
      var last := |line| - 1;
      (if line[last] == '@' then {Coord(last, y)} else {}) + RowRolls(line[..last], y)
  }

  /** The `'@'` cells of the given lines, row `y` being `lines[y]`. */
  function GridRolls(lines: seq<String>): (r: set<Coord>)
    ensures forall c :: c in r <==> 0 <= c.y < |lines| && 0 <= c.x < |lines[c.y]| && lines[c.y][c.x] == '@'
  {
    if lines == [] then {}
    else
      var last := |lines| - 1;
      GridRolls(lines[..last]) + RowRolls(lines[last], last)
  }

  /** `take_while(|line| *line != "/n")`: the lines before the first line that
      is the two characters `/n`. */
  function TakeLines(lines: seq<String>): (r: seq<String>)
    ensures r <= lines
    ensures forall k :: 0 <= k < |r| ==> r[k] != "/n"
    ensures |r| < |lines| ==> lines[|r|] == "/n"
  {
    if lines == [] || lines[0] == "/n" then []
    else [lines[0]] + TakeLines(lines[1..])
  }

  /** `parse_rolls`: the (column, row) of every `'@'`. */
  function ParseRolls(input: String): (r: set<Coord>)
    ensures forall c :: c in r <==>
      (0 <= c.y < |TakeLines(Lines(input))| && 0 <= c.x < |Lines(input)[c.y]| && Lines(input)[c.y][c.x] == '@')
  {
    GridRolls(TakeLines(Lines(input)))
  }
}
