/** 2025 day 1: a safe's dial with positions 0..99 turned by a list of
    rotations; the passwords count how often the dial ends at, or passes, 0. */
module Y2025Day01 {
  import opened Wrappers
  import opened Text

  /** A rotation: direction character and distance (`Rot`, an `i32` distance). */
  datatype Rotation = Rotation(dir: char, dist: int)

  /** Rust's `a % 100` on a signed integer: the remainder takes the sign of the dividend. */
  function RustRem100(a: int): (r: int)
    ensures a >= 0 ==> 0 <= r < 100
    ensures a < 0 ==> -100 < r <= 0
    ensures (a - r) % 100 == 0
  {
    if a >= 0 then a % 100 else -((-a) % 100)
  }

  /** `x as u32` for an `i32` value: two's complement reinterpretation. */
  function AsU32(x: int): (r: nat)
    ensures r < 0x1_0000_0000
    ensures 0 <= x < 0x1_0000_0000 ==> r == x
  {
    x % 0x1_0000_0000
  }

  /** The dial position before reduction: 'L' turns down, any other character up. */
  function NewState(dial: int, rot: Rotation): int {
    if rot.dir == 'L' then dial - rot.dist else dial + rot.dist
  }

  /** The `match newstate % 100` that brings the dial back onto 0..=99. */
  function NewDial(dial: int, rot: Rotation): (r: int)
    ensures 0 <= r < 100
    ensures r == NewState(dial, rot) % 100
  {
    var newstate := NewState(dial, rot);
    var rem := RustRem100(newstate);
    if rem == 100 then 0
    else if rem >= 0 then rem
    else 100 - (Abs(newstate) % 100)
  }

  function Abs(x: int): nat {
    if x < 0 then -x else x
  }

  /** The fold of `password_part1`, from dial `dial` with `passwd` zeros counted. */
  function Part1From(dial: int, passwd: nat, rots: seq<Rotation>): nat
    decreases |rots|
  {
    if rots == [] then passwd
    else
      var newdial := NewDial(dial, rots[0]);
      Part1From(newdial, if newdial == 0 then passwd + 1 else passwd, rots[1..])
  }

  function PasswordPart1(init: int, rots: seq<Rotation>): nat {
    Part1From(init, 0, rots)
  }

  /** `clicks0`: how often one rotation of `password_part2` counts a pass of 0. */
  function Clicks0(dial: int, rot: Rotation): nat {
    if rot.dir == 'L' then
      if dial == 0 then AsU32(dial + rot.dist) / 100
      else AsU32((100 - dial) + rot.dist) / 100
    else AsU32(NewState(dial, rot)) / 100
  }

  /** The fold of `password_part2`. */
  function Part2From(dial: int, passwd: nat, rots: seq<Rotation>): nat
    decreases |rots|
  {
    if rots == [] then passwd
    else Part2From(NewDial(dial, rots[0]), passwd + Clicks0(dial, rots[0]), rots[1..])
  }

  function PasswordPart2(init: int, rots: seq<Rotation>): nat {
    Part2From(init, 0, rots)
  }

  /** The dial positions after each rotation. */
  function Trace(dial: int, rots: seq<Rotation>): (r: seq<int>)
    ensures |r| == |rots|
    decreases |rots|
  {
    if rots == [] then []
    else var d := NewDial(dial, rots[0]); [d] + Trace(d, rots[1..])
  }

  function CountZeros(s: seq<int>): nat {
    if s == [] then 0 else (if s[0] == 0 then 1 else 0) + CountZeros(s[1..])
  }

  /** Part 1 counts the rotations that leave the dial at 0. */
  lemma {:induction false} Part1CountsZeros(dial: int, passwd: nat, rots: seq<Rotation>)
    ensures Part1From(dial, passwd, rots) == passwd + CountZeros(Trace(dial, rots))
    decreases |rots|
  {
    if rots != [] {
      var d := NewDial(dial, rots[0]);
      Part1CountsZeros(d, if d == 0 then passwd + 1 else passwd, rots[1..]);
    }
  }

  /** The clicks one by one: the number of k in 1..=dist for which the dial,
      moved k steps in the rotation's direction, points at 0. */
  function ZeroHits(dial: int, left: bool, dist: nat): nat {
    if dist == 0 then 0
    else ZeroHits(dial, left, dist - 1) + (if (if left then dial - dist else dial + dist) % 100 == 0 then 1 else 0)
  }

  lemma DivStep(x: int)
    requires x >= 1
    ensures x / 100 == (x - 1) / 100 + (if x % 100 == 0 then 1 else 0)
  {
  }

  /** `clicks0` is the number of times the dial passes or lands on 0 during the
      rotation, for a dial on the face and a non-negative distance. */
  lemma {:induction false} ClicksCountZeroHits(dial: int, rot: Rotation)
    requires 0 <= dial < 100 && 0 <= rot.dist < 0x1_0000_0000 - 100
    ensures Clicks0(dial, rot) == ZeroHits(dial, rot.dir == 'L', rot.dist)
  {
    HitsClosedForm(dial, rot.dir == 'L', rot.dist);
  }

  lemma HitsClosedForm(dial: int, left: bool, dist: nat)
    requires 0 <= dial < 100
    ensures ZeroHits(dial, left, dist)
         == if !left then (dial + dist) / 100
            else if dial == 0 then dist / 100
            else ((100 - dial) + dist) / 100
  {
    if !left {
      HitsRight(dial, dist);
    } else if dial == 0 {
      HitsLeftFromZero(dist);
    } else {
      HitsLeft(dial, dist);
    }
  }

  lemma {:induction false} HitsRight(dial: int, dist: nat)
    requires 0 <= dial < 100
    ensures ZeroHits(dial, false, dist) == (dial + dist) / 100
  {
    if dist > 0 {
      HitsRight(dial, dist - 1);
      DivStep(dial + dist);
    }
  }

  lemma {:induction false} HitsLeftFromZero(dist: nat)
    ensures ZeroHits(0, true, dist) == dist / 100
  {
    if dist > 0 {
      HitsLeftFromZero(dist - 1);
      DivStep(dist);
      ZeroModMirror(dist);
      assert ZeroHits(0, true, dist) == ZeroHits(0, true, dist - 1) + (if (0 - dist) % 100 == 0 then 1 else 0);
    }
  }

  lemma {:induction false} HitsLeft(dial: int, dist: nat)
    requires 0 < dial < 100
    ensures ZeroHits(dial, true, dist) == ((100 - dial) + dist) / 100
  {
    if dist > 0 {
      HitsLeft(dial, dist - 1);
      DivStep(100 - dial + dist);
      ZeroModMirror(100 - dial + dist);
      assert ZeroHits(dial, true, dist) == ZeroHits(dial, true, dist - 1) + (if (dial - dist) % 100 == 0 then 1 else 0);
    }
  }

  /** `x` and `100 - x` are multiples of 100 together. */
  lemma ZeroModMirror(x: int)
    ensures (x % 100 == 0) == ((100 - x) % 100 == 0) && (x % 100 == 0) == ((0 - x) % 100 == 0)
  {
  }

  /** When the dial lands on 0 after a rotation of positive length, the rotation
      counted at least one click. */
  lemma LandingIsAClick(dial: int, rot: Rotation)
    requires 0 <= dial < 100 && 1 <= rot.dist < 0x1_0000_0000 - 100
    requires NewDial(dial, rot) == 0
    ensures Clicks0(dial, rot) >= 1
  {
    HitsClosedForm(dial, rot.dir == 'L', rot.dist);
    HitsLast(dial, rot.dir == 'L', rot.dist);
  }

  lemma HitsLast(dial: int, left: bool, dist: nat)
    requires dist >= 1 && (if left then dial - dist else dial + dist) % 100 == 0
    ensures ZeroHits(dial, left, dist) >= 1
  {
  }

  predicate ValidDistances(rots: seq<Rotation>) {
    forall i :: 0 <= i < |rots| ==> 1 <= rots[i].dist < 0x1_0000_0000 - 100
  }

  /** With every distance positive, part 2 counts at least as many zeros as part 1:
      each landing on 0 is also a click onto 0. */
  lemma {:induction false} Part2AtLeastPart1(dial: int, p1: nat, p2: nat, rots: seq<Rotation>)
    requires 0 <= dial < 100 && p1 <= p2 && ValidDistances(rots)
    ensures Part1From(dial, p1, rots) <= Part2From(dial, p2, rots)
    decreases |rots|
  {
    if rots != [] {
      var d := NewDial(dial, rots[0]);
      if d == 0 {
        LandingIsAClick(dial, rots[0]);
      }
      Part2AtLeastPart1(d, if d == 0 then p1 + 1 else p1, p2 + Clicks0(dial, rots[0]), rots[1..]);
    }
  }

  lemma PasswordsOrdered(init: int, rots: seq<Rotation>)
    requires 0 <= init < 100 && ValidDistances(rots)
    ensures PasswordPart1(init, rots) <= PasswordPart2(init, rots)
  {
    Part2AtLeastPart1(init, 0, 0, rots);
  }

  /** One line: the first character is the direction, the rest the distance;
      an empty line makes `split_at(1)` panic. */
  function ParseRotation(line: String): (r: Option<Rotation>)
    ensures r.Some? <==> |line| >= 1 && ParseI32(line[1..]).Some?
    ensures r.Some? ==> r.value.dir == line[0] && Some(r.value.dist) == ParseI32(line[1..])
    ensures r.Some? ==> I32_MIN <= r.value.dist < I32_LIMIT
  {
    if |line| == 0 then None
    else match ParseI32(line[1..])
      case Some(d) => Some(Rotation(line[0], d))
      case None => None
  }

  /** `parse`: one rotation per line; `None` where the program panics. */
  function Parse(input: String): (r: Option<seq<Rotation>>)
    ensures r.Some? <==> forall k :: 0 <= k < |Lines(input)| ==> ParseRotation(Lines(input)[k]).Some?
    ensures r.Some? ==> (|r.value| == |Lines(input)|
      && forall k :: 0 <= k < |r.value| ==> ParseRotation(Lines(input)[k]) == Some(r.value[k]))
  {
    MapAll(Lines(input), ParseRotation)
  }
}
