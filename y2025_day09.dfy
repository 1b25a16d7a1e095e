/** Red tiles on a grid: the largest rectangle with two red tiles as
    opposite corners. */
module Y2025Day09 {
  import opened Wrappers
  import opened Text
  import opened SeqUtil

  /** A red tile at column `x`, row `y`. */
  datatype Tile = Tile(x: nat, y: nat)

  function Min(a: nat, b: nat): nat {
    if a <= b then a else b
  }

  function Max(a: nat, b: nat): nat {
    if a <= b then b else a
  }

  /** `max(a, b) + 1 - min(a, b)`: the cells from one coordinate to the other. */
  function Span(a: nat, b: nat): (r: nat)
    ensures r >= 1
  {
    Max(a, b) + 1 - Min(a, b)
  }

  /** `rectsize`: the area of the rectangle with corners `a` and `b`, both
      corners included. */
  function RectSize(a: Tile, b: Tile): nat {
    Span(a.x, b.x) * Span(a.y, b.y)
  }

  // The area counted cell by cell

  /** The cells `x0 <= x < x0 + w`, `y0 <= y < y0 + h`. */
  function Block(x0: nat, w: nat, y0: nat, h: nat): set<Tile> {
    set x: nat, y: nat | x0 <= x < x0 + w && y0 <= y < y0 + h :: Tile(x, y)
  }

  /** The cells of the rectangle with corners `a` and `b`. */
  function Cells(a: Tile, b: Tile): set<Tile> {
    set x: nat, y: nat | Min(a.x, b.x) <= x <= Max(a.x, b.x) && Min(a.y, b.y) <= y <= Max(a.y, b.y) :: Tile(x, y)
  }

  /** One row of `w` cells holds `w` cells. */
  lemma {:induction false} RowCard(x0: nat, w: nat, y: nat)
    ensures |Block(x0, w, y, 1)| == w
  {
    if w > 0 {
      RowCard(x0, w - 1, y);
      assert Block(x0, w, y, 1) == Block(x0, w - 1, y, 1) + {Tile(x0 + w - 1, y)};
    }
  }

  /** A block of `h` rows of `w` cells holds `w * h` cells. */
  lemma {:induction false} BlockCard(x0: nat, w: nat, y0: nat, h: nat)
    ensures |Block(x0, w, y0, h)| == w * h
  {
    if h > 0 {
      BlockCard(x0, w, y0, h - 1);
      RowCard(x0, w, y0 + h - 1);
      var top, row := Block(x0, w, y0, h - 1), Block(x0, w, y0 + h - 1, 1);
      assert Block(x0, w, y0, h) == top + row;
      assert top * row == {};
      assert w * h == w * (h - 1) + w;
    }
  }

  /** The area is the number of cells of the rectangle, corners included. */
  lemma RectSizeCounts(a: Tile, b: Tile)
    ensures RectSize(a, b) == |Cells(a, b)|
    ensures a in Cells(a, b) && b in Cells(a, b)
  {
    var x0, y0 := Min(a.x, b.x), Min(a.y, b.y);
    assert Cells(a, b) == Block(x0, Span(a.x, b.x), y0, Span(a.y, b.y));
    BlockCard(x0, Span(a.x, b.x), y0, Span(a.y, b.y));
  }

  /** The area does not depend on which corner comes first, and is at least 1. */
  lemma RectSizeFacts(a: Tile, b: Tile)
    ensures RectSize(a, b) == RectSize(b, a)
    ensures RectSize(a, b) >= 1
    ensures RectSize(a, a) == 1
  {
    MulPositive(Span(a.x, b.x), Span(a.y, b.y));
  }

  lemma MulPositive(m: nat, n: nat)
    requires m >= 1 && n >= 1
    ensures m * n >= 1
  {
  }

  // The rectangles

  /** `allrects`: each pair of tiles `(tiles[i], tiles[j])` with i < j, in
      the order of the nested loops. `redtiles.len() - 1` underflows on an
      empty list. */
  method AllRects(tiles: seq<Tile>) returns (rectangles: seq<(Tile, Tile)>)
    requires |tiles| >= 1
    ensures rectangles == Rects(tiles)
  {
    var n := |tiles|;
    rectangles := [];
    for i := 0 to n - 1
      invariant rectangles == PairsAt(tiles, PairRows(i, n))
    {
      var row := PairsFrom(tiles, i);
      PairsAtAppend(tiles, PairRows(i, n), PairRow(i, n));
      rectangles := rectangles + row;
    }
  }

  /** The pairs `allrects` lists. */
  function Rects(tiles: seq<Tile>): seq<(Tile, Tile)> {
    PairsAt(tiles, AllPairs(|tiles|))
  }

  /** There are n(n-1)/2 rectangles, and each pair i < j of tiles spans one. */
  lemma RectsComplete(tiles: seq<Tile>)
    ensures 2 * |Rects(tiles)| == |tiles| * (|tiles| - 1)
    ensures forall i, j :: 0 <= i < j < |tiles| ==> (tiles[i], tiles[j]) in Rects(tiles)
  {
    var n := |tiles|;
    AllPairsCount(n);
    AllPairsMembers(n);
    forall i, j | 0 <= i < j < n ensures (tiles[i], tiles[j]) in Rects(tiles) {
      assert (i, j) in AllPairs(n);
      var k :| 0 <= k < |AllPairs(n)| && AllPairs(n)[k] == (i, j);
      assert Rects(tiles)[k] == (tiles[i], tiles[j]);
    }
  }

  /** Every rectangle has two tiles of the list, the first before the second. */
  lemma RectsSound(tiles: seq<Tile>, k: nat)
    requires k < |Rects(tiles)|
    ensures exists i, j :: 0 <= i < j < |tiles| && Rects(tiles)[k] == (tiles[i], tiles[j])
  {
    var p := AllPairs(|tiles|)[k];
    assert Rects(tiles)[k] == (tiles[p.0], tiles[p.1]);
  }

  // Part 1

  /** `.map(rectsize).max().unwrap_or(0)`. */
  function MaxSize(rects: seq<(Tile, Tile)>): (r: nat)
    ensures forall k :: 0 <= k < |rects| ==> RectSize(rects[k].0, rects[k].1) <= r
    ensures rects == [] ==> r == 0
    ensures rects != [] ==> exists k :: 0 <= k < |rects| && r == RectSize(rects[k].0, rects[k].1)
  {
    if rects == [] then 0
    else
      var init, last := rects[..|rects| - 1], rects[|rects| - 1];
      var m := MaxSize(init);
      var size := RectSize(last.0, last.1);
      assert forall k :: 0 <= k < |init| ==> rects[k] == init[k];
      if init != [] then
        var k :| 0 <= k < |init| && m == RectSize(init[k].0, init[k].1);
        assert rects[k] == init[k];
        Max(m, size)
      else
        size
  }

  /** `part1`: the largest rectangle; it panics in `allrects` on an empty list. */
  method Part1(tiles: seq<Tile>) returns (r: nat)
    requires |tiles| >= 1
    ensures r == MaxSize(Rects(tiles))
  {
    var rectangles := AllRects(tiles);
    r := MaxSize(rectangles);
  }

  /** Part 1 is the largest area spanned by two tiles, and 0 with one tile. */
  lemma Part1Largest(tiles: seq<Tile>)
    requires |tiles| >= 1
    ensures forall i, j :: 0 <= i < j < |tiles| ==> RectSize(tiles[i], tiles[j]) <= MaxSize(Rects(tiles))
    ensures |tiles| == 1 ==> MaxSize(Rects(tiles)) == 0
    ensures |tiles| >= 2 ==> exists i, j :: 0 <= i < j < |tiles| && MaxSize(Rects(tiles)) == RectSize(tiles[i], tiles[j])
  {
    var rects := Rects(tiles);
    RectsComplete(tiles);
    forall i, j | 0 <= i < j < |tiles| ensures RectSize(tiles[i], tiles[j]) <= MaxSize(rects) {
      var k :| 0 <= k < |rects| && rects[k] == (tiles[i], tiles[j]);
    }
    if |tiles| >= 2 {
      assert |rects| >= 1;
      var k :| 0 <= k < |rects| && MaxSize(rects) == RectSize(rects[k].0, rects[k].1);
      RectsSound(tiles, k);
    }
  }

  // Parsing

  /** One line `x,y`: the first two comma-separated numbers. */
  function ParseTile(line: String): (r: Option<Tile>)
    ensures r.Some? <==> (|Split(line, ',')| >= 2 && ParseU64(Split(line, ',')[0]).Some?
      && ParseU64(Split(line, ',')[1]).Some?)
    ensures r.Some? ==> r.value.x < U64_LIMIT && r.value.y < U64_LIMIT
  {
    var nums := Split(line, ',');
    if |nums| < 2 then None
    else match (ParseU64(nums[0]), ParseU64(nums[1]))
      case (Some(x), Some(y)) => Some(Tile(x, y))
      case _ => None
  }

  /** `parse`: one tile per line of the trimmed input. */
  function Parse(input: String): (r: Option<seq<Tile>>)
    ensures r.Some? <==> forall k :: 0 <= k < |Lines(Trim(input))| ==> ParseTile(Lines(Trim(input))[k]).Some?
    ensures r.Some? ==> (|r.value| == |Lines(Trim(input))|
      && forall k :: 0 <= k < |r.value| ==> ParseTile(Lines(Trim(input))[k]) == Some(r.value[k]))
  {
    MapAll(Lines(Trim(input)), ParseTile)
  }

  /** A tile written as `x,y` parses back when its coordinates fit in a
      `u64`. */
  lemma ParseTileFormat(t: Tile)
    requires t.x < U64_LIMIT && t.y < U64_LIMIT
    ensures ParseTile(NatToText(t.x) + "," + NatToText(t.y)) == Some(t)
  {
    DigitPairSplits(NatToText(t.x), NatToText(t.y), ',');
    ParseU64ToText(t.x);
    ParseU64ToText(t.y);
  }
}
