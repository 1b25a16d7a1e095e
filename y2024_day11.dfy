/** Plutonian pebbles: at every blink each stone is rewritten by the first
    rule that applies (0 becomes 1; a number with an even count of decimal
    digits splits into its two halves; any other number is multiplied by
    2024), and the rewritten stones keep their order. */
module Y2024Day11 {
  import opened Wrappers
  import opened Text
  import opened Positional
  import opened Decimal
  import opened SeqUtil

  // Digit counting

  /** `numdigits`: Rust's `ilog10`, one less than the number of decimal digits. */
  function Log10(x: nat): (r: nat)
    requires x >= 1
    ensures r + 1 == NumDigits(x)
  {
    ILog10(x)
  }

  /** `numdigits_even`: the logarithm is even, so the number of digits is odd. */
  predicate Log10Even(x: nat): (r: bool)
    requires x >= 1
    ensures r <==> NumDigits(x) % 2 == 1
  {
    Log10(x) % 2 == 0
  }

  // One stone

  /** The divisor that cuts a number into its halves: 10^(ilog10 / 2 + 1). */
  function HalfPow(stone: nat): (r: nat)
    requires stone >= 1
    ensures r >= 1
  {
    Pow10(Log10(stone) / 2 + 1)
  }

  /** `blink_stone`: the stones one stone turns into at a blink. */
  function BlinkStone(stone: nat): (r: seq<nat>)
    ensures 1 <= |r| <= 2
  {
    if stone == 0 then [1]
    else if Log10Even(stone) then [stone * 2024]
    else [stone / HalfPow(stone), stone % HalfPow(stone)]
  }

  /** The three rules, stated with the number of decimal digits: zero becomes
      one, an odd digit count multiplies by 2024, and an even count of 2k
      digits splits into the first k digits and the number the last k digits
      spell, so that the halves put together give the stone back. */
  lemma BlinkStoneRules(stone: nat)
    ensures stone == 0 ==> BlinkStone(stone) == [1]
    ensures stone >= 1 && NumDigits(stone) % 2 == 1 ==> BlinkStone(stone) == [stone * 2024]
    ensures stone >= 1 && NumDigits(stone) % 2 == 0 ==>
      && |BlinkStone(stone)| == 2
      && Digits(BlinkStone(stone)[0]) == Digits(stone)[..NumDigits(stone) / 2]
      && BlinkStone(stone)[1] == ValueOf(Digits(stone)[NumDigits(stone) / 2..])
  {
    if stone >= 1 && NumDigits(stone) % 2 == 0 {
      assert Log10(stone) / 2 + 1 == NumDigits(stone) / 2;
      DigitsHighLow(stone, NumDigits(stone) / 2);
    }
  }

  /** A stone with 2k digits splits into a high part of exactly k digits and
      a low part below 10^k with high * 10^k + low == stone. */
  lemma SplitHalves(stone: nat, k: nat)
    requires stone >= 1 && NumDigits(stone) == 2 * k
    ensures |BlinkStone(stone)| == 2
    ensures BlinkStone(stone)[0] * Pow10(k) + BlinkStone(stone)[1] == stone
    ensures NumDigits(BlinkStone(stone)[0]) == k
    ensures BlinkStone(stone)[1] < Pow10(k)
  {
    BlinkStoneRules(stone);
    assert HalfPow(stone) == Pow10(k);
    DivModParts(stone, Pow10(k));
  }

  // Whole rows of stones

  /** `blink`: every stone rewritten in place of itself, in order. */
  function Blink(stones: seq<nat>): (r: seq<nat>)
    ensures |stones| <= |r| <= 2 * |stones|
  {
    if stones == [] then [] else BlinkStone(stones[0]) + Blink(stones[1..])
  }

  /** Blinking a row is blinking its parts. */
  lemma {:induction false} BlinkAppend(a: seq<nat>, b: seq<nat>)
    ensures Blink(a + b) == Blink(a) + Blink(b)
  {
    if a == [] {
      assert a + b == b;
    } else {
      assert (a + b)[0] == a[0];
      assert (a + b)[1..] == a[1..] + b;
      BlinkAppend(a[1..], b);
      AppendAssoc(BlinkStone(a[0]), Blink(a[1..]), Blink(b));
    }
  }

  /** Blinking one more stone appends what that stone turns into. */
  lemma BlinkSnoc(s: seq<nat>, i: nat)
    requires i < |s|
    ensures Blink(s[..i + 1]) == Blink(s[..i]) + BlinkStone(s[i])
  {
    assert s[..i + 1] == s[..i] + [s[i]];
    BlinkAppend(s[..i], [s[i]]);
    assert Blink([s[i]]) == BlinkStone(s[i]) + Blink([]);
  }

  /** `depth` blinks in a row. */
  function BlinkN(stones: seq<nat>, depth: nat): (r: seq<nat>)
    ensures |stones| <= |r|
    decreases depth
  {
    if depth == 0 then stones else BlinkN(Blink(stones), depth - 1)
  }

  /** Repeated blinking also works part by part. */
  lemma {:induction false} BlinkNAppend(a: seq<nat>, b: seq<nat>, depth: nat)
    ensures BlinkN(a + b, depth) == BlinkN(a, depth) + BlinkN(b, depth)
    decreases depth
  {
    if depth > 0 {
      BlinkAppend(a, b);
      BlinkNAppend(Blink(a), Blink(b), depth - 1);
      assert BlinkN(a + b, depth) == BlinkN(Blink(a) + Blink(b), depth - 1);
      assert BlinkN(a, depth) == BlinkN(Blink(a), depth - 1);
      assert BlinkN(b, depth) == BlinkN(Blink(b), depth - 1);
    }
  }

  /** Counting one more stone adds what that stone becomes. */
  lemma BlinkNSnoc(s: seq<nat>, i: nat, depth: nat)
    requires i < |s|
    ensures |BlinkN(s[..i + 1], depth)| == |BlinkN(s[..i], depth)| + |BlinkN([s[i]], depth)|
  {
    assert s[..i + 1] == s[..i] + [s[i]];
    BlinkNAppend(s[..i], [s[i]], depth);
  }

  /** No stones stay no stones. */
  lemma {:induction false} BlinkNEmpty(depth: nat)
    ensures BlinkN([], depth) == []
  {
    if depth > 0 {
      BlinkNEmpty(depth - 1);
    }
  }

  /** A single stone blinks into the stones it turns into. */
  lemma BlinkSingle(stone: nat)
    ensures Blink([stone]) == BlinkStone(stone)
  {
    assert [stone][1..] == [];
  }

  /** After a first blink, one stone has become the stones it turns into. */
  lemma BlinkNOne(stone: nat, depth: nat)
    requires depth >= 1
    ensures BlinkN([stone], depth) == BlinkN(BlinkStone(stone), depth - 1)
  {
    BlinkSingle(stone);
  }

  // Counting

  /** `nstones_depth`: the number of stones one stone becomes after `depth`
      blinks, by recursion on the stones of the first blink. Depth 0 makes
      the source subtract one from zero. */
  method NStonesDepth(stone: nat, depth: nat) returns (n: nat)
    requires depth >= 1
    ensures n == |BlinkN([stone], depth)|
    decreases depth
  {
    BlinkNOne(stone, depth);
    n := 0;
    if depth == 1 {
      var substones := BlinkStone(stone);
      return |substones|;
    }
    var substones := BlinkStone(stone);
    BlinkNEmpty(depth - 1);
    for i := 0 to |substones|
      invariant n == |BlinkN(substones[..i], depth - 1)|
    {
      var m := NStonesDepth(substones[i], depth - 1);
      BlinkNSnoc(substones, i, depth - 1);
      n := n + m;
    }
    assert substones[..|substones|] == substones;
  }

  /** `blink_stone_counter`: the number of stones after `depth` blinks,
      summed stone by stone. With no stones nothing is counted, so depth 0
      is harmless only then. */
  method BlinkStoneCounter(stones: seq<nat>, depth: nat) returns (n: nat)
    requires depth >= 1 || stones == []
    ensures n == |BlinkN(stones, depth)|
  {
    n := 0;
    BlinkNEmpty(depth);
    for i := 0 to |stones|
      invariant n == |BlinkN(stones[..i], depth)|
    {
      var m := NStonesDepth(stones[i], depth);
      BlinkNSnoc(stones, i, depth);
      n := n + m;
    }
    assert stones[..|stones|] == stones;
  }

  // In place

  /** A `VecDeque<u64>`: a row of stones that grows by insertion. */
  class Deque {
    var items: seq<nat>

    constructor(stones: seq<nat>)
      ensures items == stones
    {
      items := stones;
    }

    /** `VecDeque::insert`, which panics past the end. */
    method Insert(index: nat, value: nat)
      requires index <= |items|
      modifies this
      ensures items == old(items[..index]) + [value] + old(items[index..])
    {
      items := items[..index] + [value] + items[index..];
    }
  }

  /** Overwriting one stone puts the new stone between the untouched parts. */
  lemma Overwrite(items: seq<nat>, p: nat, v: nat)
    requires p < |items|
    ensures items[p := v] == items[..p] + [v] + items[p + 1..]
  {
  }

  /** Overwriting one stone and inserting a second one right after it puts
      both between the untouched parts. */
  lemma OverwriteInsert(items: seq<nat>, p: nat, hi: nat, lo: nat)
    requires p < |items|
    ensures items[p := hi][..p + 1] + [lo] + items[p := hi][p + 1..] == items[..p] + [hi, lo] + items[p + 1..]
  {
  }

  /** The row after stone `i` has been blinked in place: the first `i`
      stones have become their blinked forms and the rest are untouched. */
  lemma BlinkedUpTo(s: seq<nat>, i: nat, p: nat, items: seq<nat>, done: seq<nat>)
    requires i < |s| && p == |Blink(s[..i])| && items == Blink(s[..i]) + s[i..]
    requires done == items[..p] + BlinkStone(s[i]) + items[p + 1..]
    ensures done == Blink(s[..i + 1]) + s[i + 1..]
    ensures |Blink(s[..i + 1])| == p + |BlinkStone(s[i])|
  {
    BlinkSnoc(s, i);
    assert items[..p] == Blink(s[..i]);
    assert items[p + 1..] == s[i + 1..];
  }

  /** The body of `blink_mut`'s loop: blinks the stone at position `p` in
      place, writing the first stone it turns into over it and inserting the
      second one, if any, right after it. */
  method BlinkAt(stones: Deque, p: nat) returns (inserted: nat)
    requires p < |stones.items|
    modifies stones
    ensures stones.items == old(stones.items[..p]) + BlinkStone(old(stones.items[p])) + old(stones.items[p + 1..])
    ensures inserted + 1 == |BlinkStone(old(stones.items[p]))|
  {
    ghost var items := stones.items;
    var stone := stones.items[p];
    if stone == 0 {
      Overwrite(items, p, 1);
      stones.items := stones.items[p := 1];
      inserted := 0;
    } else if Log10Even(stone) {
      Overwrite(items, p, stone * 2024);
      stones.items := stones.items[p := stone * 2024];
      inserted := 0;
    } else {
      OverwriteInsert(items, p, stone / HalfPow(stone), stone % HalfPow(stone));
      stones.items := stones.items[p := stone / HalfPow(stone)];
      stones.Insert(p + 1, stone % HalfPow(stone));
      inserted := 1;
    }
  }

  /** `blink_mut`: blinks the deque in place, walking the original stones
      while `nconcats` counts the halves inserted so far. */
  method BlinkMut(stones: Deque)
    modifies stones
    ensures stones.items == Blink(old(stones.items))
  {
    ghost var s := stones.items;
    var nconcats: nat := 0;
    var len := |stones.items|;
    for i := 0 to len
      invariant |Blink(s[..i])| == i + nconcats
      invariant stones.items == Blink(s[..i]) + s[i..]
    {
      ghost var items := stones.items;
      assert items[i + nconcats] == s[i];
      var inserted := BlinkAt(stones, i + nconcats);
      BlinkedUpTo(s, i, i + nconcats, items, stones.items);
      nconcats := nconcats + inserted;
    }
    assert s[..len] == s;
  }

  // Parsing

  /** `parse`: the whitespace-separated `u64` numbers; None where an
      `unwrap` would panic. */
  function Parse(input: String): (r: Option<seq<nat>>)
    ensures r.Some? ==> |r.value| == |SplitWhitespace(input)|
    ensures r.Some? ==> forall k :: 0 <= k < |r.value| ==> r.value[k] < U64_LIMIT
  {
    MapAll(SplitWhitespace(input), ParseU64)
  }

  /** Stones written with spaces parse back. */
  lemma ParseSpaced(stones: seq<nat>)
    requires forall k :: 0 <= k < |stones| ==> stones[k] < U64_LIMIT
    ensures Parse(Spaced(Texts(stones))) == Some(stones)
  {
    ParseNumbersBack(stones);
  }
}
