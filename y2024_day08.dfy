/** Resonant collinearity: antennas of one frequency create antinodes on the
    line through each pair; part 1 takes the two points where one antenna is
    twice as far as the other, part 2 every grid point on the line. */
module Y2024Day08 {
  import opened Wrappers
  import opened Text

  /** A grid position; antinodes may fall outside the grid, so both
      coordinates are signed. */
  datatype Coord = Coord(x: int, y: int)

  /** The antennas of each frequency, in the order they were read. */
  type Antennas = map<char, seq<Coord>>

  /** `coord_within_bound`: the boundary is exclusive. */
  predicate Within(coord: Coord, boundary: Coord) {
    0 <= coord.x < boundary.x && 0 <= coord.y < boundary.y
  }

  // Antinodes of one pair

  /** `antpair_antinodes`: the point beyond `ant2` and the point beyond
      `ant1`, each at the pair's distance. */
  function Antinodes(ant1: Coord, ant2: Coord): (r: seq<Coord>)
    ensures |r| == 2
  {
    [Coord(ant1.x + 2 * (ant2.x - ant1.x), ant1.y + 2 * (ant2.y - ant1.y)),
     Coord(ant2.x + 2 * (ant1.x - ant2.x), ant2.y + 2 * (ant1.y - ant2.y))]
  }

  /** Each antinode is on the line of the pair, with one antenna twice as far
      away as the other; swapping the antennas swaps the antinodes. */
  lemma AntinodesMeaning(ant1: Coord, ant2: Coord)
    ensures Antinodes(ant1, ant2)[0] == OnLine(ant1, ant2, 2)
    ensures Antinodes(ant1, ant2)[1] == OnLine(ant1, ant2, -1)
    ensures Antinodes(ant2, ant1) == [Antinodes(ant1, ant2)[1], Antinodes(ant1, ant2)[0]]
  {
  }

  /** The point `k` steps of `ant2 - ant1` away from `ant1`. */
  function OnLine(ant1: Coord, ant2: Coord, k: int): Coord {
    Coord(ant1.x + k * (ant2.x - ant1.x), ant1.y + k * (ant2.y - ant1.y))
  }

  // Harmonics of one pair

  /** `i` steps of `step` from `p`. */
  function At(p: Coord, step: Coord, i: nat): Coord {
    Coord(p.x + i * step.x, p.y + i * step.y)
  }

  function Shift(p: Coord, step: Coord): Coord {
    Coord(p.x + step.x, p.y + step.y)
  }

  /** How many more steps can stay in bounds, at most. */
  function Room(p: Coord, step: Coord, boundary: Coord): nat {
    if !Within(p, boundary) then 0
    else if step.x > 0 then boundary.x - p.x
    else if step.x < 0 then p.x + 1
    else if step.y > 0 then boundary.y - p.y
    else if step.y < 0 then p.y + 1
    else 0
  }

  /** `(0..).map(|i| p + i * step).take_while(in bounds)` for a non-zero step. */
  function Ray(p: Coord, step: Coord, boundary: Coord): (r: seq<Coord>)
    requires step != Coord(0, 0)
    ensures forall q :: q in r ==> Within(q, boundary)
    decreases Room(p, step, boundary)
  {
    if Within(p, boundary) then [p] + Ray(Shift(p, step), step, boundary) else []
  }

  /** A coordinate between two in-bounds ones is in bounds. */
  lemma Between(v: int, t: int, i: nat, lo: int, hi: int)
    requires i >= 1 && lo <= v < hi && lo <= v + i * t < hi
    ensures lo <= v + t < hi
  {
    var j := i - 1;
    assert v + i * t == v + t + j * t;
    if t >= 0 {
      assert j * t >= 0;
    } else {
      assert j * t <= 0;
    }
  }

  lemma AtShift(p: Coord, step: Coord, i: nat)
    requires i >= 1
    ensures At(Shift(p, step), step, i - 1) == At(p, step, i)
  {
    var j := i - 1;
    assert i * step.x == step.x + j * step.x;
    assert i * step.y == step.y + j * step.y;
  }

  /** The ray holds exactly the in-bounds points some whole number of steps
      from an in-bounds start: the grid is convex, so stopping at the first
      point outside loses nothing. */
  lemma {:induction false} RayMembers(p: Coord, step: Coord, boundary: Coord, q: Coord)
    requires step != Coord(0, 0)
    ensures q in Ray(p, step, boundary) <==>
      Within(p, boundary) && Within(q, boundary) && exists i: nat :: q == At(p, step, i)
    decreases Room(p, step, boundary)
  {
    if Within(p, boundary) {
      var next := Shift(p, step);
      RayMembers(next, step, boundary, q);
      if q in Ray(p, step, boundary) {
        if q == p {
          assert q == At(p, step, 0);
        } else {
          var i: nat :| q == At(next, step, i);
          AtShift(p, step, i + 1);
        }
      }
      if Within(q, boundary) && exists i: nat :: q == At(p, step, i) {
        var i: nat :| q == At(p, step, i);
        if i > 0 {
          Between(p.x, step.x, i, 0, boundary.x);
          Between(p.y, step.y, i, 0, boundary.y);
          AtShift(p, step, i);
          assert q in Ray(next, step, boundary);
        }
      }
    }
  }

  function Neg(c: Coord): Coord {
    Coord(-c.x, -c.y)
  }

  /** `antpair_antinodes_harmonics`: from `ant1`, every second multiple of
      the pair's offset forwards and then backwards, each while in bounds
      (the source loops forever on two equal in-bounds antennas). */
  function Harmonics(ant1: Coord, ant2: Coord, boundary: Coord): (r: seq<Coord>)
    requires ant1 != ant2
    ensures forall q :: q in r ==> Within(q, boundary)
  {
    var step := Coord(2 * (ant2.x - ant1.x), 2 * (ant2.y - ant1.y));
    Ray(ant1, step, boundary) + Ray(ant1, Neg(step), boundary)
  }

  /** `2 * j` offsets from `ant1`. */
  function EvenPoint(ant1: Coord, ant2: Coord, j: int): Coord {
    OnLine(ant1, ant2, 2 * j)
  }

  /** The points each ordering of the pair contributes, as multiples of
      `ant2 - ant1` from `ant1`: even ones from `(ant1, ant2)`, odd ones from
      `(ant2, ant1)`. */
  lemma HarmonicsEven(ant1: Coord, ant2: Coord, boundary: Coord, q: Coord)
    requires ant1 != ant2 && Within(ant1, boundary)
    ensures q in Harmonics(ant1, ant2, boundary) <==>
      Within(q, boundary) && exists j :: q == EvenPoint(ant1, ant2, j)
  {
    if q in Harmonics(ant1, ant2, boundary) {
      HarmonicsEvenSound(ant1, ant2, boundary, q);
    }
    if Within(q, boundary) && exists j :: q == EvenPoint(ant1, ant2, j) {
      var j :| q == EvenPoint(ant1, ant2, j);
      HarmonicsEvenComplete(ant1, ant2, boundary, j);
    }
  }

  lemma HarmonicsEvenSound(ant1: Coord, ant2: Coord, boundary: Coord, q: Coord)
    requires ant1 != ant2 && q in Harmonics(ant1, ant2, boundary)
    ensures exists j :: q == EvenPoint(ant1, ant2, j)
  {
    var step := Coord(2 * (ant2.x - ant1.x), 2 * (ant2.y - ant1.y));
    var j: int;
    if q in Ray(ant1, step, boundary) {
      var i := RayIndex(ant1, step, boundary, q);
      EvenForward(ant1, ant2, i);
      j := i;
    } else {
      var i := RayIndex(ant1, Neg(step), boundary, q);
      EvenBackward(ant1, ant2, i);
      j := -(i as int);
    }
    assert q == EvenPoint(ant1, ant2, j);
  }

  /** The number of steps a point of a ray lies from its start. */
  lemma RayIndex(p: Coord, step: Coord, boundary: Coord, q: Coord) returns (i: nat)
    requires step != Coord(0, 0) && q in Ray(p, step, boundary)
    ensures q == At(p, step, i)
  {
    RayMembers(p, step, boundary, q);
    i :| q == At(p, step, i);
  }

  lemma HarmonicsEvenComplete(ant1: Coord, ant2: Coord, boundary: Coord, j: int)
    requires ant1 != ant2 && Within(ant1, boundary) && Within(EvenPoint(ant1, ant2, j), boundary)
    ensures EvenPoint(ant1, ant2, j) in Harmonics(ant1, ant2, boundary)
  {
    var step := Coord(2 * (ant2.x - ant1.x), 2 * (ant2.y - ant1.y));
    var q := EvenPoint(ant1, ant2, j);
    if j >= 0 {
      EvenForward(ant1, ant2, j);
      RayMembers(ant1, step, boundary, q);
    } else {
      var i: nat := 0 - j;
      EvenBackward(ant1, ant2, i);
      RayMembers(ant1, Neg(step), boundary, q);
    }
  }

  lemma EvenForward(ant1: Coord, ant2: Coord, i: nat)
    ensures At(ant1, Coord(2 * (ant2.x - ant1.x), 2 * (ant2.y - ant1.y)), i) == EvenPoint(ant1, ant2, i)
  {
    assert i * (2 * (ant2.x - ant1.x)) == (2 * i) * (ant2.x - ant1.x);
    assert i * (2 * (ant2.y - ant1.y)) == (2 * i) * (ant2.y - ant1.y);
  }

  lemma EvenBackward(ant1: Coord, ant2: Coord, i: nat)
    ensures At(ant1, Neg(Coord(2 * (ant2.x - ant1.x), 2 * (ant2.y - ant1.y))), i) == EvenPoint(ant1, ant2, 0 - i)
  {
    var j: int := 0 - i;
    assert i * -(2 * (ant2.x - ant1.x)) == (2 * j) * (ant2.x - ant1.x);
    assert i * -(2 * (ant2.y - ant1.y)) == (2 * j) * (ant2.y - ant1.y);
  }

  /** The same line seen from the other antenna: `k` steps from `ant2`
      towards `ant1` are `1 - k` steps from `ant1` towards `ant2`. */
  lemma OnLineSwap(ant1: Coord, ant2: Coord, k: int)
    ensures OnLine(ant2, ant1, k) == OnLine(ant1, ant2, 1 - k)
  {
    assert k * (ant1.x - ant2.x) == (1 - k) * (ant2.x - ant1.x) - (ant2.x - ant1.x);
    assert k * (ant1.y - ant2.y) == (1 - k) * (ant2.y - ant1.y) - (ant2.y - ant1.y);
  }

  /** Both orderings of a pair together give every in-bounds point a whole
      number of offsets from `ant1`. */
  lemma HarmonicsCover(ant1: Coord, ant2: Coord, boundary: Coord, q: Coord)
    requires ant1 != ant2 && Within(ant1, boundary) && Within(ant2, boundary)
    ensures q in Harmonics(ant1, ant2, boundary) || q in Harmonics(ant2, ant1, boundary) <==>
      Within(q, boundary) && exists k :: q == OnLine(ant1, ant2, k)
  {
    HarmonicsEven(ant1, ant2, boundary, q);
    HarmonicsEven(ant2, ant1, boundary, q);
    if q in Harmonics(ant1, ant2, boundary) {
      var j :| q == EvenPoint(ant1, ant2, j);
      assert q == OnLine(ant1, ant2, 2 * j);
    }
    if q in Harmonics(ant2, ant1, boundary) {
      var j :| q == EvenPoint(ant2, ant1, j);
      OnLineSwap(ant1, ant2, 2 * j);
      assert q == OnLine(ant1, ant2, 1 - 2 * j);
    }
    if Within(q, boundary) && exists k :: q == OnLine(ant1, ant2, k) {
      var k :| q == OnLine(ant1, ant2, k);
      var j := k / 2;
      if k == 2 * j {
        assert q == EvenPoint(ant1, ant2, j);
      } else {
        assert k == 2 * j + 1;
        OnLineSwap(ant1, ant2, 0 - 2 * j);
        assert q == EvenPoint(ant2, ant1, 0 - j);
      }
    }
  }

  // All antinodes

  /** `calc_antinodes`: the in-bounds antinodes of every ordered pair of
      distinct antennas of one frequency. */
  function AntinodeSet(antennas: Antennas, boundary: Coord): (r: set<Coord>)
    ensures forall q :: q in r ==> Within(q, boundary)
  {
    set f, ant1, ant2, q | f in antennas && ant1 in antennas[f] && ant2 in antennas[f] && ant1 != ant2
      && q in Antinodes(ant1, ant2) && Within(q, boundary) :: q
  }

  /** `calc_antinodes_with_harmonics`: the same over the harmonics. */
  function HarmonicSet(antennas: Antennas, boundary: Coord): (r: set<Coord>)
    ensures forall q :: q in r ==> Within(q, boundary)
  {
    set f, ant1, ant2, q | f in antennas && ant1 in antennas[f] && ant2 in antennas[f] && ant1 != ant2
      && q in Harmonics(ant1, ant2, boundary) && Within(q, boundary) :: q
  }

  /** Every antenna lies in bounds. */
  predicate AllWithin(antennas: Antennas, boundary: Coord) {
    forall f, a :: f in antennas && a in antennas[f] ==> Within(a, boundary)
  }

  /** Part 1's antinodes: points twice as far from one antenna of a pair as
      from the other. */
  lemma AntinodeSetMeaning(antennas: Antennas, boundary: Coord, q: Coord)
    ensures q in AntinodeSet(antennas, boundary) <==>
      Within(q, boundary) && exists f, ant1, ant2 ::
        f in antennas && ant1 in antennas[f] && ant2 in antennas[f] && ant1 != ant2 && q == OnLine(ant1, ant2, 2)
  {
    if q in AntinodeSet(antennas, boundary) {
      var f, ant1, ant2 :| f in antennas && ant1 in antennas[f] && ant2 in antennas[f] && ant1 != ant2
        && q in Antinodes(ant1, ant2);
      AntinodesMeaning(ant1, ant2);
      if q != OnLine(ant1, ant2, 2) {
        assert q == OnLine(ant2, ant1, 2);
      }
    }
    if Within(q, boundary) && exists f, ant1, ant2 ::
        f in antennas && ant1 in antennas[f] && ant2 in antennas[f] && ant1 != ant2 && q == OnLine(ant1, ant2, 2) {
      var f, ant1, ant2 :| f in antennas && ant1 in antennas[f] && ant2 in antennas[f] && ant1 != ant2
        && q == OnLine(ant1, ant2, 2);
      AntinodesMeaning(ant1, ant2);
      assert q in Antinodes(ant1, ant2);
    }
  }

  /** Part 2's antinodes: every in-bounds point on the grid line through two
      antennas of one frequency. */
  lemma HarmonicSetMeaning(antennas: Antennas, boundary: Coord, q: Coord)
    requires AllWithin(antennas, boundary)
    ensures q in HarmonicSet(antennas, boundary) <==>
      Within(q, boundary) && exists f, ant1, ant2, k ::
        f in antennas && ant1 in antennas[f] && ant2 in antennas[f] && ant1 != ant2 && q == OnLine(ant1, ant2, k)
  {
    if q in HarmonicSet(antennas, boundary) {
      var f, ant1, ant2 :| f in antennas && ant1 in antennas[f] && ant2 in antennas[f] && ant1 != ant2
        && q in Harmonics(ant1, ant2, boundary);
      HarmonicsCover(ant1, ant2, boundary, q);
      var k :| q == OnLine(ant1, ant2, k);
    }
    if Within(q, boundary) && exists f, ant1, ant2, k ::
        f in antennas && ant1 in antennas[f] && ant2 in antennas[f] && ant1 != ant2 && q == OnLine(ant1, ant2, k) {
      var f, ant1, ant2, k :| f in antennas && ant1 in antennas[f] && ant2 in antennas[f] && ant1 != ant2
        && q == OnLine(ant1, ant2, k);
      HarmonicsCover(ant1, ant2, boundary, q);
      if q !in Harmonics(ant1, ant2, boundary) {
        assert q in Harmonics(ant2, ant1, boundary);
      }
    }
  }

  /** Part 2 finds every antinode of part 1. */
  lemma AntinodesAmongHarmonics(antennas: Antennas, boundary: Coord)
    requires AllWithin(antennas, boundary)
    ensures AntinodeSet(antennas, boundary) <= HarmonicSet(antennas, boundary)
  {
    forall q | q in AntinodeSet(antennas, boundary) ensures q in HarmonicSet(antennas, boundary) {
      AntinodeSetMeaning(antennas, boundary, q);
      HarmonicSetMeaning(antennas, boundary, q);
    }
  }

  // Parsing

  /** `parse_boundary`: the width of the last line and the number of lines;
      the source panics on an input without lines. */
  function ParseBoundary(input: String): (r: Option<Coord>)
    ensures r.Some? <==> |Lines(input)| >= 1
  {
    var lines := Lines(input);
    if lines == [] then None else Some(Coord(|lines[|lines| - 1]|, |lines|))
  }

  /** The list of a frequency, empty when it has none. */
  function Get(m: Antennas, c: char): seq<Coord> {
    if c in m then m[c] else []
  }

  /** `parse_cell`: every character but `.` appends its position to its own
      list, creating the list on first sight. */
  function ParseCell(cell: char, x: nat, y: nat, m: Antennas): (r: Antennas)
    ensures r.Keys == if cell == '.' then m.Keys else m.Keys + {cell}
    ensures forall k :: k in m && k != cell ==> r[k] == m[k]
    ensures cell != '.' ==> r[cell] == (if cell in m then m[cell] else []) + [Coord(x, y)]
  {
    if cell == '.' then m
    else if cell in m then m[cell := m[cell] + [Coord(x, y)]]
    else m[cell := [Coord(x, y)]]
  }

  /** The cells of one row, left to right. */
  function AddRow(m: Antennas, line: String, y: nat): Antennas {
    if line == [] then m
    else
      var x := |line| - 1;
      ParseCell(line[x], x, y, AddRow(m, line[..x], y))
  }

  /** The rows, top to bottom. */
  function AntennasOf(lines: seq<String>): Antennas {
    if lines == [] then map[]
    else
      var y := |lines| - 1;
      AddRow(AntennasOf(lines[..y]), lines[y], y)
  }

  /** `parse_antennas`: every cell of every line, in reading order. */
  method ParseAntennas(input: String) returns (m: Antennas)
    ensures m == AntennasOf(Lines(input))
  {
    var lines := Lines(input);
    m := map[];
    for y := 0 to |lines|
      invariant m == AntennasOf(lines[..y])
    {
      var line := lines[y];
      ghost var start := m;
      for x := 0 to |line|
        invariant m == AddRow(start, line[..x], y)
      {
        assert line[..x + 1][..x] == line[..x];
        m := ParseCell(line[x], x, y, m);
      }
      assert line[..|line|] == line;
      assert lines[..y + 1][..y] == lines[..y];
    }
    assert lines[..|lines|] == lines;
  }

  /** Where `c` occurs in one row, left to right. */
  function RowPositions(line: String, y: nat, c: char): seq<Coord> {
    if line == [] then []
    else
      var x := |line| - 1;
      RowPositions(line[..x], y, c) + (if line[x] == c then [Coord(x, y)] else [])
  }

  /** Where `c` occurs in the grid, in row-major order. */
  function Positions(lines: seq<String>, c: char): seq<Coord> {
    if lines == [] then []
    else
      var y := |lines| - 1;
      Positions(lines[..y], c) + RowPositions(lines[y], y, c)
  }

  /** Every list holds at least one antenna. */
  predicate Keyed(m: Antennas) {
    forall c :: c in m ==> m[c] != []
  }

  lemma {:induction false} AddRowMeaning(m: Antennas, line: String, y: nat, c: char)
    ensures Get(AddRow(m, line, y), c) == Get(m, c) + (if c == '.' then [] else RowPositions(line, y, c))
    ensures Keyed(m) ==> Keyed(AddRow(m, line, y))
  {
    if line != [] {
      var x := |line| - 1;
      AddRowMeaning(m, line[..x], y, c);
    }
  }

  /** The map `parse_antennas` builds: for each character other than `.`,
      its positions in row-major order, and no empty lists. */
  lemma {:induction false} AntennasMeaning(lines: seq<String>, c: char)
    ensures Keyed(AntennasOf(lines))
    ensures Get(AntennasOf(lines), c) == if c == '.' then [] else Positions(lines, c)
    ensures c in AntennasOf(lines) <==> c != '.' && Positions(lines, c) != []
  {
    if lines != [] {
      var y := |lines| - 1;
      AntennasMeaning(lines[..y], c);
      AddRowMeaning(AntennasOf(lines[..y]), lines[y], y, c);
      forall d ensures Get(AddRow(AntennasOf(lines[..y]), lines[y], y), d) == Get(AntennasOf(lines[..y]), d) + (if d == '.' then [] else RowPositions(lines[y], y, d)) {
        AddRowMeaning(AntennasOf(lines[..y]), lines[y], y, d);
      }
    }
  }

  /** The row positions of `c` are its cells in that row, left to right. */
  lemma {:induction false} RowPositionsMeaning(line: String, y: nat, c: char)
    ensures forall q :: q in RowPositions(line, y, c) <==> q.y == y && 0 <= q.x < |line| && line[q.x] == c
    ensures forall i, j :: 0 <= i < j < |RowPositions(line, y, c)| ==> RowPositions(line, y, c)[i].x < RowPositions(line, y, c)[j].x
  {
    if line != [] {
      var x := |line| - 1;
      RowPositionsMeaning(line[..x], y, c);
    }
  }

  /** Row-major order: by row, then by column. */
  predicate Before(p: Coord, q: Coord) {
    p.y < q.y || (p.y == q.y && p.x < q.x)
  }

  /** `parse_cell` records exactly the cells holding `c`, each once, in
      row-major order. */
  lemma {:induction false} PositionsMeaning(lines: seq<String>, c: char)
    ensures forall q :: q in Positions(lines, c) <==>
      0 <= q.y < |lines| && 0 <= q.x < |lines[q.y]| && lines[q.y][q.x] == c
    ensures forall i, j :: 0 <= i < j < |Positions(lines, c)| ==> Before(Positions(lines, c)[i], Positions(lines, c)[j])
  {
    if lines != [] {
      var y := |lines| - 1;
      PositionsMeaning(lines[..y], c);
      RowPositionsMeaning(lines[y], y, c);
      var before, row := Positions(lines[..y], c), RowPositions(lines[y], y, c);
      assert Positions(lines, c) == before + row;
      forall i, j | 0 <= i < j < |before + row| ensures Before((before + row)[i], (before + row)[j]) {
        if j >= |before| && i < |before| {
          assert before[i] in before;
          assert row[j - |before|] in row;
        } else if i >= |before| {
          assert (before + row)[i] == row[i - |before|];
          assert (before + row)[j] == row[j - |before|];
        }
      }
    }
  }

  /** On a rectangular grid every antenna `parse_antennas` finds lies within
      the boundary `parse_boundary` reads. */
  lemma AntennasWithin(input: String)
    requires |Lines(input)| >= 1
    requires forall k :: 0 <= k < |Lines(input)| ==> |Lines(input)[k]| == |Lines(input)[|Lines(input)| - 1]|
    ensures AllWithin(AntennasOf(Lines(input)), ParseBoundary(input).value)
  {
    var lines := Lines(input);
    var m := AntennasOf(lines);
    forall f, a | f in m && a in m[f] ensures Within(a, ParseBoundary(input).value) {
      AntennasMeaning(lines, f);
      PositionsMeaning(lines, f);
    }
  }
}
