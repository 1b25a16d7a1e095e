/** Guard patrol: the guard walks straight until an obstacle is in front and
    then turns right; part 1 counts the cells it covers before it leaves the
    field, part 2 counts the single extra obstacles that trap it in a loop. */
module Y2024Day06 {
  import opened Wrappers
  import opened Text
  import opened SeqUtil

  datatype Coordinate = Coordinate(x: nat, y: nat)

  datatype Dir = Up | Down | Left | Right

  datatype Guard = Guard(coord: Coordinate, dir: Dir)

  /** Where the guard stops: in front of an obstacle, still on the field, or
      at the border as it leaves. */
  datatype NextPose = Ongoing(guard: Guard) | Final(guard: Guard)

  /** `Dir::next_dir`: a quarter turn clockwise. */
  function NextDir(dir: Dir): Dir {
    match dir
    case Up => Right
    case Down => Left
    case Left => Up
    case Right => Down
  }

  /** The turns go Up, Right, Down, Left and back; four turns change nothing. */
  lemma NextDirCycle(dir: Dir)
    ensures NextDir(Up) == Right && NextDir(Right) == Down && NextDir(Down) == Left && NextDir(Left) == Up
    ensures NextDir(NextDir(NextDir(NextDir(dir)))) == dir
    ensures NextDir(dir) != dir
  {
  }

  predicate IsMarker(c: char) {
    c == '^' || c == 'v' || c == '<' || c == '>'
  }

  /** `Dir::from_char`; the source has no direction for any other character. */
  function FromChar(c: char): Dir
    requires IsMarker(c)
  {
    match c
    case '^' => Up
    case 'v' => Down
    case '<' => Left
    case '>' => Right
  }

  // One move

  /** The obstacle lies strictly ahead of the guard, on its row or column. */
  predicate Ahead(guard: Guard, ob: Coordinate) {
    match guard.dir
    case Up => ob.y < guard.coord.y && ob.x == guard.coord.x
    case Down => ob.y > guard.coord.y && ob.x == guard.coord.x
    case Left => ob.x < guard.coord.x && ob.y == guard.coord.y
    case Right => ob.x > guard.coord.x && ob.y == guard.coord.y
  }

  /** `dist_to_guard`: the Manhattan distance. */
  function Dist(guard: Guard, c: Coordinate): nat {
    (if guard.coord.x >= c.x then guard.coord.x - c.x else c.x - guard.coord.x)
    + (if guard.coord.y >= c.y then guard.coord.y - c.y else c.y - guard.coord.y)
  }

  /** The `min_by_key` over the obstacles ahead: the first of the nearest. */
  function Nearest(obstacles: seq<Coordinate>, guard: Guard): (r: Option<Coordinate>)
    ensures r.Some? ==> r.value in obstacles && Ahead(guard, r.value)
    ensures r.Some? ==> forall o :: o in obstacles && Ahead(guard, o) ==> Dist(guard, r.value) <= Dist(guard, o)
    ensures r.None? ==> forall o :: o in obstacles ==> !Ahead(guard, o)
  {
    if obstacles == [] then None
    else
      var rest := Nearest(obstacles[..|obstacles| - 1], guard);
      var last := obstacles[|obstacles| - 1];
      assert obstacles == obstacles[..|obstacles| - 1] + [last];
      if Ahead(guard, last) && (rest.None? || Dist(guard, last) < Dist(guard, rest.value)) then Some(last)
      else rest
  }

  /** The cell in front of an obstacle ahead, on the guard's side
      (`below`, `above`, `right`, `left`). */
  function Stop(guard: Guard, ob: Coordinate): Coordinate
    requires Ahead(guard, ob)
  {
    match guard.dir
    case Up => Coordinate(ob.x, ob.y + 1)
    case Down => Coordinate(ob.x, ob.y - 1)
    case Left => Coordinate(ob.x + 1, ob.y)
    case Right => Coordinate(ob.x - 1, ob.y)
  }

  /** With nothing ahead the guard leaves Down or Right across `border - 1`,
      which underflows on an empty field. */
  predicate Panics(obstacles: seq<Coordinate>, border: Coordinate, guard: Guard) {
    Nearest(obstacles, guard).None? && ((guard.dir == Down && border.y == 0) || (guard.dir == Right && border.x == 0))
  }

  /** The last cell before the border in the guard's direction. */
  function BorderCell(border: Coordinate, guard: Guard): Coordinate
    requires !(guard.dir == Down && border.y == 0) && !(guard.dir == Right && border.x == 0)
  {
    match guard.dir
    case Up => Coordinate(guard.coord.x, 0)
    case Down => Coordinate(guard.coord.x, border.y - 1)
    case Left => Coordinate(0, guard.coord.y)
    case Right => Coordinate(border.x - 1, guard.coord.y)
  }

  /** `next_pose`: with an obstacle ahead the guard stops in front of the
      nearest one and turns; otherwise it walks to the border and leaves. */
  function Move(obstacles: seq<Coordinate>, border: Coordinate, guard: Guard): (r: NextPose)
    requires !Panics(obstacles, border, guard)
    ensures r.Ongoing? <==> exists o :: o in obstacles && Ahead(guard, o)
    ensures r.Ongoing? ==> r.guard.dir == NextDir(guard.dir)
    ensures r.Ongoing? ==>
      exists o ::
        && o in obstacles && Ahead(guard, o) && r.guard.coord == Stop(guard, o)
        && forall o' :: o' in obstacles && Ahead(guard, o') ==> Dist(guard, o) <= Dist(guard, o')
    ensures r.Final? ==> r.guard.dir == guard.dir && r.guard.coord == BorderCell(border, guard)
  {
    match Nearest(obstacles, guard)
    case Some(ob) => Ongoing(Guard(Stop(guard, ob), NextDir(guard.dir)))
    case None => Final(Guard(BorderCell(border, guard), guard.dir))
  }

  /** The cell at position `v` along the line the guard walks: column
      `fixed` when it moves vertically, row `fixed` when horizontally. */
  function AxisCell(dir: Dir, fixed: nat, v: nat): Coordinate {
    if dir == Up || dir == Down then Coordinate(fixed, v) else Coordinate(v, fixed)
  }

  /** The cells at positions `lo .. hi - 1` along that line. */
  function Span(dir: Dir, fixed: nat, lo: nat, hi: nat): set<Coordinate> {
    set v: nat | lo <= v < hi :: AxisCell(dir, fixed, v)
  }

  /** The cells `update_visited_cells` marks for a move from `guard` to
      `to`: both ends inclusive, on the line of `to`. */
  function Segment(guard: Guard, to: Coordinate): set<Coordinate> {
    match guard.dir
    case Up => Span(Up, to.x, to.y, guard.coord.y + 1)
    case Down => Span(Down, to.x, guard.coord.y, to.y + 1)
    case Left => Span(Left, to.y, to.x, guard.coord.x + 1)
    case Right => Span(Right, to.y, guard.coord.x, to.x + 1)
  }

  lemma SpanStep(dir: Dir, fixed: nat, lo: nat, v: nat)
    requires lo <= v
    ensures Span(dir, fixed, lo, v + 1) == Span(dir, fixed, lo, v) + {AxisCell(dir, fixed, v)}
  {
  }

  /** `update_visited_cells`: insert each cell of the move into the set. */
  method UpdateVisitedCells(guard: Guard, next: NextPose, visited: set<Coordinate>) returns (r: set<Coordinate>)
    ensures r == visited + Segment(guard, next.guard.coord)
  {
    var to := next.guard.coord;
    var fixed, lo, hi;
    match guard.dir {
      case Up => fixed, lo, hi := to.x, to.y, guard.coord.y;
      case Down => fixed, lo, hi := to.x, guard.coord.y, to.y;
      case Left => fixed, lo, hi := to.y, to.x, guard.coord.x;
      case Right => fixed, lo, hi := to.y, guard.coord.x, to.x;
    }
    assert Segment(guard, to) == Span(guard.dir, fixed, lo, hi + 1);
    r := visited;
    var v := lo;
    while v <= hi
      invariant lo <= v && (v <= hi + 1 || v == lo)
      invariant r == visited + Span(guard.dir, fixed, lo, v)
    {
      SpanStep(guard.dir, fixed, lo, v);
      r := r + {AxisCell(guard.dir, fixed, v)};
      v := v + 1;
    }
    assert Span(guard.dir, fixed, lo, v) == Span(guard.dir, fixed, lo, hi + 1);
  }

  /** Apart from the guard's own cell, no obstacle lies on the cells of a
      move: it stops in front of the nearest obstacle, or meets none. */
  lemma MoveClear(obstacles: seq<Coordinate>, border: Coordinate, guard: Guard, o: Coordinate)
    requires !Panics(obstacles, border, guard)
    requires o in obstacles && o in Segment(guard, Move(obstacles, border, guard).guard.coord)
    ensures o == guard.coord
  {
    if o != guard.coord {
      assert Ahead(guard, o);
    }
  }

  // Walks

  /** The field `[0, border.x) x [0, border.y)`. */
  predicate InField(border: Coordinate, c: Coordinate) {
    c.x < border.x && c.y < border.y
  }

  /** A move from a cell of the field among obstacles of the field covers
      only cells of the field, and ends on one. */
  lemma MoveInField(obstacles: seq<Coordinate>, border: Coordinate, guard: Guard)
    requires !Panics(obstacles, border, guard)
    requires InField(border, guard.coord)
    requires forall o :: o in obstacles ==> InField(border, o)
    ensures InField(border, Move(obstacles, border, guard).guard.coord)
    ensures forall c :: c in Segment(guard, Move(obstacles, border, guard).guard.coord) ==> InField(border, c)
  {
  }

  /** `count_visited` with a step budget: the set of covered cells once the
      guard leaves the field; None when it needs more than `fuel` moves (the
      source recurses forever on a loop) or would panic. */
  function Visited(obstacles: seq<Coordinate>, border: Coordinate, guard: Guard, visited: set<Coordinate>, fuel: nat): Option<set<Coordinate>>
    decreases fuel
  {
    if fuel == 0 || Panics(obstacles, border, guard) then None
    else
      var next := Move(obstacles, border, guard);
      var covered := visited + Segment(guard, next.guard.coord);
      match next
      case Ongoing(g) => Visited(obstacles, border, g, covered, fuel - 1)
      case Final(_) => Some(covered)
  }

  /** `count_visited`: move, mark the cells, and recurse until the guard
      leaves the field. */
  method CountVisited(guard: Guard, obstacles: seq<Coordinate>, border: Coordinate, visited: set<Coordinate>, fuel: nat)
    returns (r: Option<set<Coordinate>>)
    ensures r == Visited(obstacles, border, guard, visited, fuel)
    decreases fuel
  {
    if fuel == 0 || Panics(obstacles, border, guard) {
      return None;
    }
    var next := Move(obstacles, border, guard);
    var covered := UpdateVisitedCells(guard, next, visited);
    match next {
      case Ongoing(g) =>
        r := CountVisited(g, obstacles, border, covered, fuel - 1);
      case Final(_) =>
        r := Some(covered);
    }
  }

  /** The covered set only grows, and holds every cell of the first move. */
  lemma {:induction false} VisitedGrows(obstacles: seq<Coordinate>, border: Coordinate, guard: Guard, visited: set<Coordinate>, fuel: nat)
    requires Visited(obstacles, border, guard, visited, fuel).Some?
    ensures visited + Segment(guard, Move(obstacles, border, guard).guard.coord) <= Visited(obstacles, border, guard, visited, fuel).value
    decreases fuel
  {
    var next := Move(obstacles, border, guard);
    var covered := visited + Segment(guard, next.guard.coord);
    if next.Ongoing? {
      VisitedGrows(obstacles, border, next.guard, covered, fuel - 1);
    }
  }

  /** A guard that starts on the field among obstacles of the field only
      ever covers cells of the field. */
  lemma {:induction false} VisitedInField(obstacles: seq<Coordinate>, border: Coordinate, guard: Guard, visited: set<Coordinate>, fuel: nat)
    requires InField(border, guard.coord)
    requires forall o :: o in obstacles ==> InField(border, o)
    requires forall c :: c in visited ==> InField(border, c)
    requires Visited(obstacles, border, guard, visited, fuel).Some?
    ensures forall c :: c in Visited(obstacles, border, guard, visited, fuel).value ==> InField(border, c)
    decreases fuel
  {
    var next := Move(obstacles, border, guard);
    MoveInField(obstacles, border, guard);
    if next.Ongoing? {
      VisitedInField(obstacles, border, next.guard, visited + Segment(guard, next.guard.coord), fuel - 1);
    }
  }

  /** The history holds a turning point at `c` other than the four newest. */
  predicate SeenBefore(history: seq<Coordinate>, c: Coordinate) {
    exists i :: 4 <= i < |history| && history[i] == c
  }

  /** `detect_loop` with a step budget: true when a new turning point
      repeats an older one, false when the guard leaves the field; None when
      it needs more than `fuel` moves or would panic. The history is newest
      first. */
  function LoopFound(obstacles: seq<Coordinate>, border: Coordinate, guard: Guard, history: seq<Coordinate>, fuel: nat): Option<bool>
    decreases fuel
  {
    if fuel == 0 || Panics(obstacles, border, guard) then None
    else
      match Move(obstacles, border, guard)
      case Ongoing(g) =>
        if SeenBefore(history, g.coord) then Some(true)
        else LoopFound(obstacles, border, g, [g.coord] + history, fuel - 1)
      case Final(_) => Some(false)
  }

  /** `detect_loop`: move, then report a loop when the new turning point is
      in the history past its four newest entries, or recurse with it pushed
      to the front. */
  method DetectLoop(guard: Guard, obstacles: seq<Coordinate>, border: Coordinate, history: seq<Coordinate>, fuel: nat)
    returns (r: Option<bool>)
    ensures r == LoopFound(obstacles, border, guard, history, fuel)
    decreases fuel
  {
    if fuel == 0 || Panics(obstacles, border, guard) {
      return None;
    }
    var next := Move(obstacles, border, guard);
    match next {
      case Ongoing(g) =>
        var i := 4;
        while i < |history|
          invariant 4 <= i || |history| <= i
          invariant forall k :: 4 <= k < i && k < |history| ==> history[k] != g.coord
        {
          if history[i] == g.coord {
            return Some(true);
          }
          i := i + 1;
        }
        r := DetectLoop(g, obstacles, border, [g.coord] + history, fuel - 1);
      case Final(_) =>
        r := Some(false);
    }
  }

  /** The detector answers "no loop" only for a guard that leaves the field,
      and it answers whenever the guard leaves the field within the budget. */
  lemma {:induction false} LoopFoundExit(obstacles: seq<Coordinate>, border: Coordinate, guard: Guard, history: seq<Coordinate>, visited: set<Coordinate>, fuel: nat)
    ensures LoopFound(obstacles, border, guard, history, fuel) == Some(false) ==> Visited(obstacles, border, guard, visited, fuel).Some?
    ensures Visited(obstacles, border, guard, visited, fuel).Some? ==> LoopFound(obstacles, border, guard, history, fuel).Some?
    decreases fuel
  {
    if fuel > 0 && !Panics(obstacles, border, guard) {
      var next := Move(obstacles, border, guard);
      if next.Ongoing? {
        LoopFoundExit(obstacles, border, next.guard, [next.guard.coord] + history, visited + Segment(guard, next.guard.coord), fuel - 1);
      }
    }
  }

  // Exits are never mistaken for loops

  /** The neighbouring cell in direction `dir`, if there is one. */
  function Front(c: Coordinate, dir: Dir): Option<Coordinate> {
    match dir
    case Up => if c.y == 0 then None else Some(Coordinate(c.x, c.y - 1))
    case Down => Some(Coordinate(c.x, c.y + 1))
    case Left => if c.x == 0 then None else Some(Coordinate(c.x - 1, c.y))
    case Right => Some(Coordinate(c.x + 1, c.y))
  }

  /** An obstacle stands right next to `c` in direction `dir`. */
  predicate Blocked(obstacles: seq<Coordinate>, c: Coordinate, dir: Dir) {
    Front(c, dir).Some? && Front(c, dir).value in obstacles
  }

  /** A free cell lies right next to `c` in direction `dir`. */
  predicate Open(obstacles: seq<Coordinate>, c: Coordinate, dir: Dir) {
    Front(c, dir).Some? && Front(c, dir).value !in obstacles
  }

  /** The guard stops right in front of the obstacle it walks to. */
  lemma StopBlocked(guard: Guard, o: Coordinate)
    requires Ahead(guard, o)
    ensures Front(Stop(guard, o), guard.dir) == Some(o)
  {
  }

  /** Every cell the guard walks over up to the nearest obstacle ahead is
      free: the cell it stops on and, when it did walk, the one behind. */
  lemma StopClear(obstacles: seq<Coordinate>, guard: Guard, o: Coordinate)
    requires guard.coord !in obstacles && o in obstacles && Ahead(guard, o)
    requires forall o' :: o' in obstacles && Ahead(guard, o') ==> Dist(guard, o) <= Dist(guard, o')
    ensures Stop(guard, o) !in obstacles
    ensures Stop(guard, o) != guard.coord ==> Open(obstacles, Stop(guard, o), NextDir(NextDir(guard.dir)))
  {
    var next := Stop(guard, o);
    if next != guard.coord {
      assert Ahead(guard, next) && Dist(guard, next) < Dist(guard, o);
      var back := Front(next, NextDir(NextDir(guard.dir))).value;
      if back != guard.coord {
        assert Ahead(guard, back) && Dist(guard, back) < Dist(guard, o);
      }
    }
  }

  /** What one move tells about the cell where the guard stops: the obstacle
      it faced is right in front of it, the cell is free when the guard
      started on a free cell, and when the guard did walk, the cell it came
      from is free as well. */
  lemma MoveStep(obstacles: seq<Coordinate>, border: Coordinate, guard: Guard)
    requires !Panics(obstacles, border, guard) && Move(obstacles, border, guard).Ongoing?
    requires guard.coord !in obstacles
    ensures var next := Move(obstacles, border, guard).guard.coord;
      && Blocked(obstacles, next, guard.dir)
      && next !in obstacles
      && (next != guard.coord ==> Open(obstacles, next, NextDir(NextDir(guard.dir))))
  {
    var next := Move(obstacles, border, guard).guard.coord;
    var o :| o in obstacles && Ahead(guard, o) && next == Stop(guard, o)
      && forall o' :: o' in obstacles && Ahead(guard, o') ==> Dist(guard, o) <= Dist(guard, o');
    StopBlocked(guard, o);
    StopClear(obstacles, guard, o);
  }

  /** An obstacle right in front makes the guard turn on the spot. */
  lemma BlockedTurns(obstacles: seq<Coordinate>, border: Coordinate, guard: Guard)
    requires Blocked(obstacles, guard.coord, guard.dir)
    ensures !Panics(obstacles, border, guard)
    ensures Move(obstacles, border, guard) == Ongoing(Guard(guard.coord, NextDir(guard.dir)))
  {
    var o := Front(guard.coord, guard.dir).value;
    assert Ahead(guard, o) && Dist(guard, o) == 1;
    var next := Move(obstacles, border, guard).guard.coord;
    var o' :| o' in obstacles && Ahead(guard, o') && next == Stop(guard, o')
      && forall o'' :: o'' in obstacles && Ahead(guard, o'') ==> Dist(guard, o') <= Dist(guard, o'');
    assert o' == o;
  }

  /** The guard at `g` moves on to `next`. */
  predicate Step(obstacles: seq<Coordinate>, border: Coordinate, g: Guard, next: Guard) {
    !Panics(obstacles, border, g) && Move(obstacles, border, g) == Ongoing(next)
  }

  /** The poses of a walk that leaves the field: each pose moves on to the
      next, and the last one leaves. */
  predicate Walk(obstacles: seq<Coordinate>, border: Coordinate, ps: seq<Guard>) {
    && |ps| >= 1
    && (forall k :: 0 <= k < |ps| - 1 ==> Step(obstacles, border, ps[k], ps[k + 1]))
    && !Panics(obstacles, border, ps[|ps| - 1]) && Move(obstacles, border, ps[|ps| - 1]).Final?
  }

  /** The walk leaves the field within `fuel` moves and without a panic. */
  predicate Leaves(obstacles: seq<Coordinate>, border: Coordinate, guard: Guard, fuel: nat)
    decreases fuel
  {
    fuel > 0 && !Panics(obstacles, border, guard)
    && match Move(obstacles, border, guard)
       case Ongoing(g) => Leaves(obstacles, border, g, fuel - 1)
       case Final(_) => true
  }

  /** The poses of a walk that leaves the field, from `guard` on. */
  function Poses(obstacles: seq<Coordinate>, border: Coordinate, guard: Guard, fuel: nat): (ps: seq<Guard>)
    requires Leaves(obstacles, border, guard, fuel)
    ensures 1 <= |ps| <= fuel && ps[0] == guard
    decreases fuel
  {
    match Move(obstacles, border, guard)
    case Ongoing(g) => [guard] + Poses(obstacles, border, g, fuel - 1)
    case Final(_) => [guard]
  }

  lemma {:induction false} PosesWalk(obstacles: seq<Coordinate>, border: Coordinate, guard: Guard, fuel: nat)
    requires Leaves(obstacles, border, guard, fuel)
    ensures Walk(obstacles, border, Poses(obstacles, border, guard, fuel))
    decreases fuel
  {
    var ps := Poses(obstacles, border, guard, fuel);
    match Move(obstacles, border, guard)
    case Ongoing(g) =>
      PosesWalk(obstacles, border, g, fuel - 1);
      var rest := Poses(obstacles, border, g, fuel - 1);
      assert ps == [guard] + rest;
      forall k | 0 <= k < |ps| - 1
        ensures Step(obstacles, border, ps[k], ps[k + 1])
      {
        if k > 0 {
          assert ps[k] == rest[k - 1] && ps[k + 1] == rest[k];
        }
      }
    case Final(_) =>
  }

  /** A covered set exists exactly for walks that leave the field. */
  lemma {:induction false} VisitedLeaves(obstacles: seq<Coordinate>, border: Coordinate, guard: Guard, visited: set<Coordinate>, fuel: nat)
    ensures Visited(obstacles, border, guard, visited, fuel).Some? <==> Leaves(obstacles, border, guard, fuel)
    decreases fuel
  {
    if fuel > 0 && !Panics(obstacles, border, guard) {
      var next := Move(obstacles, border, guard);
      if next.Ongoing? {
        VisitedLeaves(obstacles, border, next.guard, visited + Segment(guard, next.guard.coord), fuel - 1);
      }
    }
  }

  /** Two walks from the same pose agree pose by pose. */
  lemma {:induction false} WalkAgree(obstacles: seq<Coordinate>, border: Coordinate, ps: seq<Guard>, qs: seq<Guard>, k: nat)
    requires Walk(obstacles, border, ps) && Walk(obstacles, border, qs) && ps[0] == qs[0]
    requires k < |ps| && k < |qs|
    ensures ps[k] == qs[k]
  {
    if k > 0 {
      WalkAgree(obstacles, border, ps, qs, k - 1);
      assert Step(obstacles, border, ps[k - 1], ps[k]);
      assert Step(obstacles, border, qs[k - 1], qs[k]);
    }
  }

  /** Only the last pose of a walk leaves the field. */
  lemma WalkEnd(obstacles: seq<Coordinate>, border: Coordinate, ps: seq<Guard>, k: nat)
    requires Walk(obstacles, border, ps) && k < |ps|
    ensures !Panics(obstacles, border, ps[k])
    ensures Move(obstacles, border, ps[k]).Final? <==> k == |ps| - 1
  {
    if k < |ps| - 1 {
      assert Step(obstacles, border, ps[k], ps[k + 1]);
    }
  }

  /** A walk is fixed by its first pose. */
  lemma WalkUnique(obstacles: seq<Coordinate>, border: Coordinate, ps: seq<Guard>, qs: seq<Guard>)
    requires Walk(obstacles, border, ps) && Walk(obstacles, border, qs)
    ensures ps[0] == qs[0] ==> ps == qs
  {
    if ps[0] == qs[0] {
      var m := if |ps| <= |qs| then |ps| else |qs|;
      WalkAgree(obstacles, border, ps, qs, m - 1);
      WalkEnd(obstacles, border, ps, m - 1);
      WalkEnd(obstacles, border, qs, m - 1);
      forall k | 0 <= k < |ps| ensures ps[k] == qs[k] {
        WalkAgree(obstacles, border, ps, qs, k);
      }
    }
  }

  lemma WalkSuffix(obstacles: seq<Coordinate>, border: Coordinate, ps: seq<Guard>, i: nat)
    requires Walk(obstacles, border, ps) && i < |ps|
    ensures Walk(obstacles, border, ps[i..])
  {
    var qs := ps[i..];
    forall k | 0 <= k < |qs| - 1
      ensures Step(obstacles, border, qs[k], qs[k + 1])
    {
      assert qs[k] == ps[i + k] && qs[k + 1] == ps[i + k + 1];
    }
    assert qs[|qs| - 1] == ps[|ps| - 1];
  }

  /** A walk that leaves the field never comes back to a pose: from a
      repeated pose it would go round for ever. */
  lemma WalkDistinct(obstacles: seq<Coordinate>, border: Coordinate, ps: seq<Guard>, i: nat, j: nat)
    requires Walk(obstacles, border, ps) && i < j < |ps|
    ensures ps[i] != ps[j]
  {
    WalkSuffix(obstacles, border, ps, i);
    WalkSuffix(obstacles, border, ps, j);
    WalkUnique(obstacles, border, ps[i..], ps[j..]);
    assert |ps[i..]| != |ps[j..]|;
  }

  /** Started on a free cell, the guard only ever stands on free cells. */
  lemma {:induction false} WalkOffObstacles(obstacles: seq<Coordinate>, border: Coordinate, ps: seq<Guard>, k: nat)
    requires Walk(obstacles, border, ps) && ps[0].coord !in obstacles && k < |ps|
    ensures ps[k].coord !in obstacles
  {
    if k > 0 {
      WalkOffObstacles(obstacles, border, ps, k - 1);
      assert Step(obstacles, border, ps[k - 1], ps[k]);
      MoveStep(obstacles, border, ps[k - 1]);
    }
  }

  /** Each turning point: the guard has turned once, the obstacle it faced
      is right in front of it, and when it walked there the cell behind it
      is free. */
  lemma WalkArrive(obstacles: seq<Coordinate>, border: Coordinate, ps: seq<Guard>, k: nat)
    requires Walk(obstacles, border, ps) && ps[0].coord !in obstacles && 1 <= k < |ps|
    ensures ps[k].dir == NextDir(ps[k - 1].dir)
    ensures Blocked(obstacles, ps[k].coord, ps[k - 1].dir)
    ensures ps[k].coord != ps[k - 1].coord ==> Open(obstacles, ps[k].coord, NextDir(NextDir(ps[k - 1].dir)))
  {
    WalkOffObstacles(obstacles, border, ps, k - 1);
    assert Step(obstacles, border, ps[k - 1], ps[k]);
    MoveStep(obstacles, border, ps[k - 1]);
  }

  /** A guard facing an obstacle right in front turns on the spot, so the
      walk goes on. */
  lemma WalkBlocked(obstacles: seq<Coordinate>, border: Coordinate, ps: seq<Guard>, k: nat)
    requires Walk(obstacles, border, ps) && k < |ps| && Blocked(obstacles, ps[k].coord, ps[k].dir)
    ensures k + 1 < |ps| && ps[k + 1] == Guard(ps[k].coord, NextDir(ps[k].dir))
  {
    BlockedTurns(obstacles, border, ps[k]);
    WalkEnd(obstacles, border, ps, k);
    assert Step(obstacles, border, ps[k], ps[k + 1]);
  }

  lemma DirCases(f: Dir, e: Dir)
    ensures f == e || f == NextDir(e) || f == NextDir(NextDir(e)) || f == NextDir(NextDir(NextDir(e)))
  {
  }

  /** The first return to `c` after leaving it at `k`. */
  lemma {:induction false} FindArrival(ps: seq<Guard>, c: Coordinate, k: nat, t: nat) returns (a: nat)
    requires k < t < |ps| && ps[k].coord != c && ps[t].coord == c
    ensures k < a <= t && ps[a].coord == c && ps[a - 1].coord != c
    decreases t - k
  {
    if ps[k + 1].coord == c {
      a := k + 1;
    } else {
      a := FindArrival(ps, c, k + 1, t);
    }
  }

  /** A guard that walks back to an earlier turning point `ps[s]` repeats a
      pose: the obstacle it meets there, the free cell it comes from and the
      obstacle of the earlier turn leave it no new way to turn. */
  lemma ArrivalRepeats(obstacles: seq<Coordinate>, border: Coordinate, ps: seq<Guard>, s: nat, a: nat) returns (i: nat, j: nat)
    requires Walk(obstacles, border, ps) && ps[0].coord !in obstacles
    requires 1 <= s && s + 1 < a < |ps|
    requires ps[s].coord == ps[a].coord && ps[a - 1].coord != ps[a].coord
    ensures i < j < |ps| && ps[i] == ps[j]
  {
    var c := ps[a].coord;
    var e, f := ps[a - 1].dir, ps[s - 1].dir;
    WalkArrive(obstacles, border, ps, a);
    WalkArrive(obstacles, border, ps, s);
    DirCases(f, e);
    NextDirCycle(e);
    if f == e {
      i, j := s, a;
    } else if f == NextDir(e) {
      WalkBlocked(obstacles, border, ps, a);
      i, j := s, a + 1;
    } else {
      assert f == NextDir(NextDir(NextDir(e)));
      WalkBlocked(obstacles, border, ps, s);
      i, j := s + 1, a;
    }
  }

  /** Two turning points at least four moves apart on one cell make the
      guard repeat a pose. */
  lemma SameCellRepeats(obstacles: seq<Coordinate>, border: Coordinate, ps: seq<Guard>, s: nat, t: nat) returns (i: nat, j: nat)
    requires Walk(obstacles, border, ps) && ps[0].coord !in obstacles
    requires 1 <= s && s + 4 <= t < |ps| && ps[s].coord == ps[t].coord
    ensures i < j < |ps| && ps[i] == ps[j]
  {
    var c := ps[s].coord;
    WalkArrive(obstacles, border, ps, s + 1);
    WalkArrive(obstacles, border, ps, s + 2);
    WalkArrive(obstacles, border, ps, s + 3);
    WalkArrive(obstacles, border, ps, s + 4);
    NextDirCycle(ps[s].dir);
    if ps[s + 4].coord == c {
      i, j := s, s + 4;
    } else {
      var a := FindArrival(ps, c, s + 4, t);
      i, j := ArrivalRepeats(obstacles, border, ps, s, a);
    }
  }

  /** On a walk that leaves the field, turning points at least four moves
      apart lie on different cells. */
  lemma TurnsApart(obstacles: seq<Coordinate>, border: Coordinate, ps: seq<Guard>, s: nat, t: nat)
    requires Walk(obstacles, border, ps) && ps[0].coord !in obstacles
    requires 1 <= s && s + 4 <= t < |ps|
    ensures ps[s].coord != ps[t].coord
  {
    if ps[s].coord == ps[t].coord {
      var i, j := SameCellRepeats(obstacles, border, ps, s, t);
      WalkDistinct(obstacles, border, ps, i, j);
      assert false;
    }
  }

  /** The turning points after `ps[0]` up to `ps[k]`, newest first: the
      history `detect_loop` has built when it stands at `ps[k]`. */
  function History(ps: seq<Guard>, k: nat): (h: seq<Coordinate>)
    requires k < |ps|
    ensures |h| == k
    ensures forall i :: 0 <= i < k ==> h[i] == ps[k - i].coord
  {
    if k == 0 then [] else [ps[k].coord] + History(ps, k - 1)
  }

  /** The turning point `ps[t + 1]` is not in the history past its four
      newest entries. */
  predicate Quiet(ps: seq<Guard>, t: nat)
    requires t + 1 < |ps|
  {
    !SeenBefore(History(ps, t), ps[t + 1].coord)
  }

  /** On a walk that leaves the field no new turning point matches the
      history past its four newest entries. */
  lemma NoFalseAlarm(obstacles: seq<Coordinate>, border: Coordinate, ps: seq<Guard>, t: nat)
    requires Walk(obstacles, border, ps) && ps[0].coord !in obstacles && t + 1 < |ps|
    ensures Quiet(ps, t)
  {
    var h := History(ps, t);
    forall i | 4 <= i < |h| ensures h[i] != ps[t + 1].coord {
      TurnsApart(obstacles, border, ps, t - i, t + 1);
    }
  }

  /** Along a walk that leaves the field without a match in the history,
      `detect_loop` answers false. */
  lemma {:induction false} LoopFoundWalk(obstacles: seq<Coordinate>, border: Coordinate, ps: seq<Guard>, k: nat, fuel: nat)
    requires Walk(obstacles, border, ps) && k < |ps| && fuel >= |ps| - k
    requires forall t :: k <= t < |ps| - 1 ==> Quiet(ps, t)
    ensures LoopFound(obstacles, border, ps[k], History(ps, k), fuel) == Some(false)
    decreases |ps| - k
  {
    if k + 1 < |ps| {
      var next: nat, rest: nat := k + 1, fuel - 1;
      LoopFoundWalk(obstacles, border, ps, next, rest);
      LoopFoundBack(obstacles, border, ps, k, fuel, next, rest);
    } else {
      LoopFoundLast(obstacles, border, ps, k, fuel);
    }
  }

  /** One move of `detect_loop` along the walk, back from a known answer. */
  lemma LoopFoundBack(obstacles: seq<Coordinate>, border: Coordinate, ps: seq<Guard>, k: nat, fuel: nat, next: nat, rest: nat)
    requires next == k + 1 < |ps| && fuel == rest + 1
    requires Step(obstacles, border, ps[k], ps[next]) && Quiet(ps, k)
    requires LoopFound(obstacles, border, ps[next], History(ps, next), rest) == Some(false)
    ensures LoopFound(obstacles, border, ps[k], History(ps, k), fuel) == Some(false)
  {
    assert History(ps, next) == [ps[next].coord] + History(ps, k);
  }

  /** At the last pose `detect_loop` sees the guard leave. */
  lemma LoopFoundLast(obstacles: seq<Coordinate>, border: Coordinate, ps: seq<Guard>, k: nat, fuel: nat)
    requires Walk(obstacles, border, ps) && k == |ps| - 1 && fuel > 0
    ensures LoopFound(obstacles, border, ps[k], History(ps, k), fuel) == Some(false)
  {
  }


  /** `detect_loop`, started with an empty history on the guard's free cell,
      answers false exactly when the plain walk leaves the field within the
      same budget: a guard that leaves is never reported as trapped. */
  lemma ExitIffNoLoop(obstacles: seq<Coordinate>, border: Coordinate, guard: Guard, visited: set<Coordinate>, fuel: nat)
    requires guard.coord !in obstacles
    ensures LoopFound(obstacles, border, guard, [], fuel) == Some(false) <==> Visited(obstacles, border, guard, visited, fuel).Some?
  {
    LoopFoundExit(obstacles, border, guard, [], visited, fuel);
    VisitedLeaves(obstacles, border, guard, visited, fuel);
    if Leaves(obstacles, border, guard, fuel) {
      var ps := Poses(obstacles, border, guard, fuel);
      PosesWalk(obstacles, border, guard, fuel);
      forall t | 0 <= t < |ps| - 1 ensures Quiet(ps, t) {
        NoFalseAlarm(obstacles, border, ps, t);
      }
      LoopFoundWalk(obstacles, border, ps, 0, fuel);
    }
  }

  // Part 2 candidates

  /** The cells of column `x`, top to bottom. */
  function Column(x: nat, h: nat): (r: seq<Coordinate>)
    ensures |r| == h
    ensures forall y :: 0 <= y < h ==> r[y] == Coordinate(x, y)
  {
    seq(h, y requires 0 <= y < h => Coordinate(x, y))
  }

  /** The cells of the field, column by column (`flat_map` over x, then y). */
  function Cells(w: nat, h: nat): (r: seq<Coordinate>)
    ensures |r| == w * h
    ensures forall c :: c in r <==> c.x < w && c.y < h
  {
    if w == 0 then []
    else
      var column := Column(w - 1, h);
      assert forall c :: c in column <==> c.x == w - 1 && c.y < h by {
        forall c: Coordinate | c.x == w - 1 && c.y < h ensures c in column {
          assert column[c.y] == c;
        }
      }
      Cells(w - 1, h) + column
  }

  lemma {:induction false} CellsDistinct(w: nat, h: nat)
    ensures Distinct(Cells(w, h))
  {
    if w > 0 {
      CellsDistinct(w - 1, h);
      var a, b := Cells(w - 1, h), Column(w - 1, h);
      forall i, j | 0 <= i < j < |a + b| ensures (a + b)[i] != (a + b)[j] {
        if j >= |a| && i < |a| {
          assert a[i] in a;
        }
      }
    }
  }

  /** The cells that are neither an obstacle nor the guard's start. */
  function Candidates(cells: seq<Coordinate>, obstacles: seq<Coordinate>, guard: Guard): (r: seq<Coordinate>)
    ensures forall c :: c in r <==> c in cells && c !in obstacles && c != guard.coord
  {
    if cells == [] then []
    else
      var c := cells[|cells| - 1];
      assert cells == cells[..|cells| - 1] + [c];
      Candidates(cells[..|cells| - 1], obstacles, guard) + (if c !in obstacles && c != guard.coord then [c] else [])
  }

  lemma {:induction false} CandidatesDistinct(cells: seq<Coordinate>, obstacles: seq<Coordinate>, guard: Guard)
    requires Distinct(cells)
    ensures Distinct(Candidates(cells, obstacles, guard))
  {
    if cells != [] {
      var init := cells[..|cells| - 1];
      assert Distinct(init);
      CandidatesDistinct(init, obstacles, guard);
      assert cells == init + [cells[|cells| - 1]];
    }
  }

  /** `variants`: for every free cell of the field, the obstacles with that
      cell added at the end. */
  function Variants(guard: Guard, obstacles: seq<Coordinate>, border: Coordinate): (r: seq<seq<Coordinate>>)
    ensures forall v :: v in r <==>
      exists c :: InField(border, c) && c !in obstacles && c != guard.coord && v == obstacles + [c]
  {
    var cs := Candidates(Cells(border.x, border.y), obstacles, guard);
    var r := seq(|cs|, i requires 0 <= i < |cs| => obstacles + [cs[i]]);
    assert forall c :: c in cs ==> obstacles + [c] in r by {
      forall c | c in cs ensures obstacles + [c] in r {
        var i :| 0 <= i < |cs| && cs[i] == c;
        assert r[i] == obstacles + [c];
      }
    }
    r
  }

  /** Each free cell yields one variant: with distinct obstacles on the
      field and the guard on a free cell of it, there are width * height
      minus the obstacles minus one. */
  lemma VariantsCount(guard: Guard, obstacles: seq<Coordinate>, border: Coordinate)
    requires Distinct(obstacles)
    requires forall o :: o in obstacles ==> InField(border, o)
    requires InField(border, guard.coord) && guard.coord !in obstacles
    ensures |Variants(guard, obstacles, border)| == border.x * border.y - |obstacles| - 1
  {
    var cells := Cells(border.x, border.y);
    var cs := Candidates(cells, obstacles, guard);
    CellsDistinct(border.x, border.y);
    CandidatesDistinct(cells, obstacles, guard);
    DistinctCard(cells);
    DistinctCard(cs);
    DistinctCard(obstacles);
    CandidateSet(guard, obstacles, border);
    CardMinus((set c | c in cells), (set o | o in obstacles), guard.coord);
  }

  lemma CandidateSet(guard: Guard, obstacles: seq<Coordinate>, border: Coordinate)
    requires forall o :: o in obstacles ==> InField(border, o)
    ensures var cells := Cells(border.x, border.y);
      && (set c | c in Candidates(cells, obstacles, guard)) == (set c | c in cells) - (set o | o in obstacles) - {guard.coord}
      && (set o | o in obstacles) <= (set c | c in cells)
  {
  }

  lemma CardMinus(field: set<Coordinate>, blocked: set<Coordinate>, g: Coordinate)
    requires blocked <= field && g in field && g !in blocked
    ensures |field - blocked - {g}| == |field| - |blocked| - 1
  {
    assert |field - blocked| == |field| - |blocked|;
  }

  // Parsing

  /** The obstacles `#` among the first `n` characters of row `y`. */
  function RowObstacles(line: String, y: nat, n: nat): seq<Coordinate>
    requires n <= |line|
  {
    if n == 0 then []
    else RowObstacles(line, y, n - 1) + (if line[n - 1] == '#' then [Coordinate(n - 1, y)] else [])
  }

  /** The obstacles of the first `m` rows, row by row. */
  function FieldObstacles(lines: seq<String>, m: nat): seq<Coordinate>
    requires m <= |lines|
  {
    if m == 0 then [] else FieldObstacles(lines, m - 1) + RowObstacles(lines[m - 1], m - 1, |lines[m - 1]|)
  }

  /** The guard after the first `n` characters of row `y`, starting from `g`:
      the last marker seen. */
  function RowGuard(line: String, y: nat, n: nat, g: Guard): Guard
    requires n <= |line|
  {
    if n == 0 then g
    else if IsMarker(line[n - 1]) then Guard(Coordinate(n - 1, y), FromChar(line[n - 1]))
    else RowGuard(line, y, n - 1, g)
  }

  /** The guard after the first `m` rows; at (0, 0) facing Up without a
      marker. */
  function FieldGuard(lines: seq<String>, m: nat): Guard
    requires m <= |lines|
  {
    if m == 0 then Guard(Coordinate(0, 0), Up)
    else RowGuard(lines[m - 1], m - 1, |lines[m - 1]|, FieldGuard(lines, m - 1))
  }

  /** `parse_field`: one pass over the rows and their characters, pushing
      obstacles and taking each marker as the guard. */
  method ParseField(input: String) returns (obstacles: seq<Coordinate>, guard: Guard)
    ensures obstacles == FieldObstacles(Lines(input), |Lines(input)|)
    ensures guard == FieldGuard(Lines(input), |Lines(input)|)
  {
    var lines := Lines(input);
    obstacles := [];
    guard := Guard(Coordinate(0, 0), Up);
    for y := 0 to |lines|
      invariant obstacles == FieldObstacles(lines, y)
      invariant guard == FieldGuard(lines, y)
    {
      var line := lines[y];
      for x := 0 to |line|
        invariant obstacles == FieldObstacles(lines, y) + RowObstacles(line, y, x)
        invariant guard == RowGuard(line, y, x, FieldGuard(lines, y))
      {
        var cell := line[x];
        if cell == '#' {
          obstacles := obstacles + [Coordinate(x, y)];
        } else if IsMarker(cell) {
          guard := Guard(Coordinate(x, y), FromChar(cell));
        }
      }
    }
  }

  /** The cell holds `c`. */
  predicate CellIs(lines: seq<String>, p: Coordinate, c: char) {
    p.y < |lines| && p.x < |lines[p.y]| && lines[p.y][p.x] == c
  }

  /** `p` comes before `q` in reading order. */
  predicate RowMajor(p: Coordinate, q: Coordinate) {
    p.y < q.y || (p.y == q.y && p.x < q.x)
  }

  lemma {:induction false} RowObstaclesMeaning(line: String, y: nat, n: nat)
    requires n <= |line|
    ensures forall c :: c in RowObstacles(line, y, n) <==> c.y == y && c.x < n && line[c.x] == '#'
    ensures forall i, j :: 0 <= i < j < |RowObstacles(line, y, n)| ==> RowObstacles(line, y, n)[i].x < RowObstacles(line, y, n)[j].x
  {
    if n > 0 {
      RowObstaclesMeaning(line, y, n - 1);
    }
  }

  /** The obstacles are exactly the `#` cells, in reading order and so
      without repeats. */
  lemma {:induction false} FieldObstaclesMeaning(lines: seq<String>, m: nat)
    requires m <= |lines|
    ensures forall c :: c in FieldObstacles(lines, m) <==> c.y < m && CellIs(lines, c, '#')
    ensures forall i, j :: 0 <= i < j < |FieldObstacles(lines, m)| ==> RowMajor(FieldObstacles(lines, m)[i], FieldObstacles(lines, m)[j])
  {
    if m > 0 {
      FieldObstaclesMeaning(lines, m - 1);
      RowObstaclesMeaning(lines[m - 1], m - 1, |lines[m - 1]|);
      var a, b := FieldObstacles(lines, m - 1), RowObstacles(lines[m - 1], m - 1, |lines[m - 1]|);
      forall i, j | 0 <= i < j < |a + b| ensures RowMajor((a + b)[i], (a + b)[j]) {
        if i < |a| && j >= |a| {
          assert a[i] in a && b[j - |a|] in b;
        }
      }
    }
  }

  /** Without a marker among the first `n` characters the guard is
      unchanged; otherwise it stands on the last marker, facing its way. */
  lemma {:induction false} RowGuardMeaning(line: String, y: nat, n: nat, g: Guard)
    requires n <= |line|
    ensures (forall x :: 0 <= x < n ==> !IsMarker(line[x])) ==> RowGuard(line, y, n, g) == g
    ensures (exists x :: 0 <= x < n && IsMarker(line[x])) ==>
      var r := RowGuard(line, y, n, g);
      && r.coord.y == y && r.coord.x < n && IsMarker(line[r.coord.x]) && r.dir == FromChar(line[r.coord.x])
      && forall x :: r.coord.x < x < n ==> !IsMarker(line[x])
  {
    if n > 0 {
      RowGuardMeaning(line, y, n - 1, g);
    }
  }

  /** Some cell of the first `m` rows holds a marker. */
  predicate HasMarker(lines: seq<String>, m: nat)
    requires m <= |lines|
  {
    exists y, x :: 0 <= y < m && 0 <= x < |lines[y]| && IsMarker(lines[y][x])
  }

  /** The guard is the last marker in reading order, facing its way; at
      (0, 0) facing Up when there is none. */
  lemma {:induction false} FieldGuardMeaning(lines: seq<String>, m: nat)
    requires m <= |lines|
    ensures !HasMarker(lines, m) ==> FieldGuard(lines, m) == Guard(Coordinate(0, 0), Up)
    ensures HasMarker(lines, m) ==>
      var g := FieldGuard(lines, m);
      && g.coord.y < m && g.coord.x < |lines[g.coord.y]| && IsMarker(lines[g.coord.y][g.coord.x])
      && g.dir == FromChar(lines[g.coord.y][g.coord.x])
      && forall p: Coordinate :: p.y < m && p.x < |lines[p.y]| && IsMarker(lines[p.y][p.x]) ==> !RowMajor(g.coord, p)
  {
    if m > 0 {
      var line := lines[m - 1];
      FieldGuardMeaning(lines, m - 1);
      RowGuardMeaning(line, m - 1, |line|, FieldGuard(lines, m - 1));
      if !HasMarker(lines, m) {
        assert !HasMarker(lines, m - 1);
      } else if exists x :: 0 <= x < |line| && IsMarker(line[x]) {
      } else {
        assert HasMarker(lines, m - 1);
      }
    }
  }
}
