/** Day 6: a guard walks a grid, turning right in front of every obstacle,
    until it leaves the grid; the answer is the number of cells it covered
    (day06/src/lib.rs). The grid is kept as its list of obstacles only, and
    the guard jumps from one obstacle to the next by casting a ray. */
module Day06 {
  import opened Wrappers
  import opened Text

  /** `(x, y)`: column, then row, counted from the top left. */
  type Pos = (nat, nat)

  datatype Direction = North | East | South | West

  predicate IsGuardGlyph(c: char) {
    c == '^' || c == '>' || c == 'v' || c == '<'
  }

  /** The glyph that shows a guard heading in direction `d`. */
  function Glyph(d: Direction): (c: char)
    ensures IsGuardGlyph(c)
  {
    match d
    case North => '^'
    case East => '>'
    case South => 'v'
    case West => '<'
  }

  /** `TryFrom<char> for Direction`. */
  function DirectionFromGlyph(c: char): (r: Result<Direction, string>)
    ensures r.Ok? <==> IsGuardGlyph(c)
    ensures r.Ok? ==> Glyph(r.value) == c
  {
    match c
    case '^' => Ok(North)
    case '>' => Ok(East)
    case 'v' => Ok(South)
    case '<' => Ok(West)
    case _ => Err([c] + " is not a valid direction")
  }

  /** Round trip: a direction's glyph reads back as that direction. */
  lemma GlyphRoundTrip(d: Direction)
    ensures DirectionFromGlyph(Glyph(d)) == Ok(d)
  {
  }

  /** `Guard::turn_right`. */
  function TurnRight(d: Direction): (r: Direction)
    ensures r != d
  {
    match d
    case North => East
    case East => South
    case South => West
    case West => North
  }

  /** Right turns cycle through all four headings: four of them restore the
      heading and no fewer do. */
  lemma FourTurnsRestore(d: Direction)
    ensures TurnRight(TurnRight(TurnRight(TurnRight(d)))) == d
    ensures TurnRight(TurnRight(d)) != d && TurnRight(TurnRight(TurnRight(d))) != d
  {
  }

  // ---------------------------------------------------------------------------
  // The guard
  // ---------------------------------------------------------------------------

  datatype Obstacle = Obstacle(position: Pos)

  /** `Guard`: where it stands, where it heads, how far it walked and the
      cells it recorded. */
  datatype Guard = Guard(position: Pos, direction: Direction, traveledDistance: nat, distinctPositions: set<Pos>)

  /** `Guard::new`: nothing walked and nothing recorded, not even the
      starting cell. */
  function NewGuard(position: Pos, direction: Direction): Guard {
    Guard(position, direction, 0, {})
  }

  /** `p` lies strictly ahead of `at` on its row or column, looking in
      direction `d`. */
  predicate Ahead(p: Pos, at: Pos, d: Direction) {
    match d
    case North => p.1 < at.1 && p.0 == at.0
    case East => p.0 > at.0 && p.1 == at.1
    case South => p.1 > at.1 && p.0 == at.0
    case West => p.0 < at.0 && p.1 == at.1
  }

  /** How many cells ahead of `at` the position `p` lies. */
  function Gap(p: Pos, at: Pos, d: Direction): int {
    match d
    case North => at.1 - p.1
    case East => p.0 - at.0
    case South => p.1 - at.1
    case West => at.0 - p.0
  }

  /** Two obstacles ahead at the same distance are in the same place, so the
      tie-breaking of `min_by_key` and `max_by_key` does not matter. */
  lemma NearestIsUnique(p: Pos, q: Pos, at: Pos, d: Direction)
    requires Ahead(p, at, d) && Ahead(q, at, d) && Gap(p, at, d) == Gap(q, at, d)
    ensures p == q
  {
  }

  /** `Guard::cast_ray`: the nearest obstacle ahead, if there is one. */
  function CastRay(obstacles: seq<Obstacle>, at: Pos, d: Direction): (hit: Option<Obstacle>)
    ensures hit.None? <==> forall i | 0 <= i < |obstacles| :: !Ahead(obstacles[i].position, at, d)
    ensures hit.Some? ==> hit.value in obstacles && Ahead(hit.value.position, at, d)
    ensures hit.Some? ==>
              forall i | 0 <= i < |obstacles| && Ahead(obstacles[i].position, at, d) ::
                Gap(hit.value.position, at, d) <= Gap(obstacles[i].position, at, d)
  {
    if |obstacles| == 0 then None
    else
      var rest := CastRay(obstacles[1..], at, d);
      assert forall i | 1 <= i < |obstacles| :: obstacles[i] == obstacles[1..][i - 1];
      var o := obstacles[0];
      if Ahead(o.position, at, d) && (rest.None? || Gap(o.position, at, d) <= Gap(rest.value.position, at, d))
      then Some(o)
      else rest
  }

  /** The cell right in front of obstacle `p` for a guard heading in
      direction `d`. */
  function InFrontOf(p: Pos, d: Direction): Pos
    requires d == East ==> 0 < p.0
    requires d == South ==> 0 < p.1
  {
    match d
    case North => (p.0, p.1 + 1)
    case East => (p.0 - 1, p.1)
    case South => (p.0, p.1 - 1)
    case West => (p.0 + 1, p.1)
  }

  /** The numbers `lo` up to but excluding `hi`, empty when `hi <= lo`, as a
      Rust range. */
  function Range(lo: nat, hi: nat): (r: seq<nat>)
    ensures |r| == if lo <= hi then hi - lo else 0
    ensures forall i | 0 <= i < |r| :: r[i] == lo + i
  {
    seq(if lo <= hi then hi - lo else 0, i requires 0 <= i => lo + i)
  }

  /** Where `move_to` puts the guard: before the obstacle, or on a miss at
      the edge the source picks for each direction. */
  function Target(at: Pos, d: Direction, hit: Option<Obstacle>, width: nat, height: nat): Pos
    requires hit.Some? ==> Ahead(hit.value.position, at, d)
  {
    match d
    case North => (at.0, if hit.Some? then hit.value.position.1 + 1 else 0)
    case East => (if hit.Some? then hit.value.position.0 - 1 else width, at.1)
    case South => (at.0, if hit.Some? then hit.value.position.1 - 1 else height)
    case West => (if hit.Some? then hit.value.position.0 + 1 else 0, at.1)
  }

  /** The cells `move_to` records, in the order of its ranges. */
  function Crossed(at: Pos, d: Direction, target: Pos): seq<Pos> {
    match d
    case North => seq(|Range(target.1, at.1)|, i requires 0 <= i < |Range(target.1, at.1)| => (at.0, Range(target.1, at.1)[i]))
    case East => seq(|Range(at.0 + 1, target.0 + 1)|, i requires 0 <= i < |Range(at.0 + 1, target.0 + 1)| => (Range(at.0 + 1, target.0 + 1)[i], at.1))
    case South => seq(|Range(at.1 + 1, target.1 + 1)|, i requires 0 <= i < |Range(at.1 + 1, target.1 + 1)| => (at.0, Range(at.1 + 1, target.1 + 1)[i]))
    case West => seq(|Range(target.0, at.0)|, i requires 0 <= i < |Range(target.0, at.0)| => (Range(target.0, at.0)[i], at.1))
  }

  /** `c` lies on the line from `from` to `to` heading `d`: strictly past
      `from`, up to and including `to`. */
  predicate Between(from: Pos, d: Direction, to: Pos, c: Pos) {
    match d
    case North => c.0 == from.0 && to.1 <= c.1 < from.1
    case East => c.1 == from.1 && from.0 < c.0 <= to.0
    case South => c.0 == from.0 && from.1 < c.1 <= to.1
    case West => c.1 == from.1 && to.0 <= c.0 < from.0
  }

  /** The number of cells strictly past `from` up to and including `to`. */
  function Span(from: Pos, d: Direction, to: Pos): nat {
    match d
    case North => if to.1 <= from.1 then from.1 - to.1 else 0
    case East => if from.0 <= to.0 then to.0 - from.0 else 0
    case South => if from.1 <= to.1 then to.1 - from.1 else 0
    case West => if to.0 <= from.0 then from.0 - to.0 else 0
  }

  /** The recorded cells are exactly the cells between the old and the new
      position, each once. */
  lemma CrossedCells(at: Pos, d: Direction, target: Pos)
    ensures |Crossed(at, d, target)| == Span(at, d, target)
    ensures forall c: Pos :: c in Crossed(at, d, target) <==> Between(at, d, target, c)
  {
    var cells := Crossed(at, d, target);
    forall c: Pos | Between(at, d, target, c) ensures c in cells {
      match d
      case North => assert cells[c.1 - target.1] == c;
      case East => assert cells[c.0 - at.0 - 1] == c;
      case South => assert cells[c.1 - at.1 - 1] == c;
      case West => assert cells[c.0 - target.0] == c;
    }
  }

  function Elements(cells: seq<Pos>): set<Pos> {
    set i | 0 <= i < |cells| :: cells[i]
  }

  /** `Guard::move_to`, called with the result of `cast_ray`: walk to the
      target and record the cells on the way. */
  function MoveTo(g: Guard, hit: Option<Obstacle>, width: nat, height: nat): (r: Guard)
    requires hit.Some? ==> Ahead(hit.value.position, g.position, g.direction)
    ensures r.direction == g.direction
    ensures hit.Some? ==> r.position == InFrontOf(hit.value.position, g.direction)
    ensures forall c: Pos :: c in r.distinctPositions <==>
              c in g.distinctPositions || Between(g.position, g.direction, r.position, c)
    ensures r.traveledDistance == g.traveledDistance + Span(g.position, g.direction, r.position)
  {
    var target := Target(g.position, g.direction, hit, width, height);
    var cells := Crossed(g.position, g.direction, target);
    CrossedCells(g.position, g.direction, target);
    assert forall c: Pos :: c in Elements(cells) <==> c in cells;
    Guard(target, g.direction, g.traveledDistance + |cells|, g.distinctPositions + Elements(cells))
  }

  /** On a miss, moving east or south leaves the guard just outside the grid,
      at `x == width` or `y == height`; moving north or west stops it on the
      first row or column, inside. */
  lemma MissPosition(g: Guard, width: nat, height: nat)
    ensures var r := MoveTo(g, None, width, height);
            match g.direction
            case North => r.position == (g.position.0, 0)
            case East => r.position == (width, g.position.1)
            case South => r.position == (g.position.0, height)
            case West => r.position == (0, g.position.1)
  {
  }

  /** With the obstacle right in front, the guard stays where it is and
      records nothing. */
  lemma BlockedMoveChangesNothing(g: Guard, o: Obstacle, width: nat, height: nat)
    requires Ahead(o.position, g.position, g.direction)
    requires InFrontOf(o.position, g.direction) == g.position
    ensures MoveTo(g, Some(o), width, height) == g
  {
    var r := MoveTo(g, Some(o), width, height);
    assert Span(g.position, g.direction, r.position) == 0;
    forall c: Pos ensures c in r.distinctPositions <==> c in g.distinctPositions {
    }
  }

  /** `p` lies ahead of `at` and no obstacle ahead is nearer. */
  predicate NearestAhead(p: Pos, obstacles: seq<Obstacle>, at: Pos, d: Direction) {
    && Ahead(p, at, d)
    && forall j | 0 <= j < |obstacles| && Ahead(obstacles[j].position, at, d) ::
         Gap(p, at, d) <= Gap(obstacles[j].position, at, d)
  }

  /** `Guard::patrol`: cast, move, and turn right when the ray hit; the
      flag says whether it hit. */
  function Patrol(g: Guard, obstacles: seq<Obstacle>, width: nat, height: nat): (r: (Guard, bool))
    ensures r.1 <==> exists i | 0 <= i < |obstacles| :: Ahead(obstacles[i].position, g.position, g.direction)
    ensures r.0.direction == if r.1 then TurnRight(g.direction) else g.direction
    ensures !r.1 ==> r.0.position == Target(g.position, g.direction, None, width, height)
    ensures r.1 ==>
              exists i | 0 <= i < |obstacles| ::
                && NearestAhead(obstacles[i].position, obstacles, g.position, g.direction)
                && r.0.position == InFrontOf(obstacles[i].position, g.direction)
    ensures forall c: Pos :: c in r.0.distinctPositions <==>
              c in g.distinctPositions || Between(g.position, g.direction, r.0.position, c)
    ensures r.0.traveledDistance == g.traveledDistance + Span(g.position, g.direction, r.0.position)
  {
    var hit := CastRay(obstacles, g.position, g.direction);
    var moved := MoveTo(g, hit, width, height);
    if hit.Some? then
      var i :| 0 <= i < |obstacles| && obstacles[i] == hit.value;
      assert NearestAhead(obstacles[i].position, obstacles, g.position, g.direction);
      (moved.(direction := TurnRight(moved.direction)), true)
    else (moved, false)
  }

  /** An obstacle right in front only turns the guard. */
  lemma BlockedPatrolOnlyTurns(g: Guard, obstacles: seq<Obstacle>, width: nat, height: nat, i: nat)
    requires i < |obstacles| && Ahead(obstacles[i].position, g.position, g.direction)
    requires InFrontOf(obstacles[i].position, g.direction) == g.position
    ensures Patrol(g, obstacles, width, height) == (g.(direction := TurnRight(g.direction)), true)
  {
    var hit := CastRay(obstacles, g.position, g.direction);
    assert Gap(obstacles[i].position, g.position, g.direction) == 1;
    NearestIsUnique(hit.value.position, obstacles[i].position, g.position, g.direction);
    BlockedMoveChangesNothing(g, hit.value, width, height);
  }

  // ---------------------------------------------------------------------------
  // The patrol area and the count
  // ---------------------------------------------------------------------------

  datatype PatrolArea = PatrolArea(guard: Guard, obstacles: seq<Obstacle>, width: nat, height: nat)

  /** `PatrolArea::step_patrol`: one patrol move; only the guard changes.
      The flag says whether an obstacle lay ahead (the guard then turned
      right); without one the guard walked off to the edge. The cells
      passed are added to the record. */
  function StepPatrol(area: PatrolArea): (r: (PatrolArea, bool))
    ensures r.0.obstacles == area.obstacles && r.0.width == area.width && r.0.height == area.height
    ensures var g := area.guard;
            r.1 <==> exists i | 0 <= i < |area.obstacles| :: Ahead(area.obstacles[i].position, g.position, g.direction)
    ensures var g := area.guard;
            r.0.guard.direction == if r.1 then TurnRight(g.direction) else g.direction
    ensures var g := area.guard;
            !r.1 ==> r.0.guard.position == Target(g.position, g.direction, None, area.width, area.height)
    ensures var g := area.guard;
            r.1 ==>
              exists i | 0 <= i < |area.obstacles| ::
                && NearestAhead(area.obstacles[i].position, area.obstacles, g.position, g.direction)
                && r.0.guard.position == InFrontOf(area.obstacles[i].position, g.direction)
    ensures var g := area.guard;
            forall c: Pos :: c in r.0.guard.distinctPositions <==>
              c in g.distinctPositions || Between(g.position, g.direction, r.0.guard.position, c)
    ensures var g := area.guard;
            r.0.guard.traveledDistance == g.traveledDistance + Span(g.position, g.direction, r.0.guard.position)
  {
    var (g, inside) := Patrol(area.guard, area.obstacles, area.width, area.height);
    (area.(guard := g), inside)
  }

  datatype CountError =
    | OutOfFuel      // the patrol did not leave within the fuel given
    | CountUnderflow // `len() - 1` of an empty set: a `usize` underflow

  /** `while self.patrol_area.step_patrol() {}`: at most `fuel` moves; a
      guard walking in a loop never stops in the source. The patrol keeps
      the grid, only ever adds recorded cells and distance, and stays in
      the box. */
  function PatrolUntilMiss(area: PatrolArea, fuel: nat): (r: Result<PatrolArea, CountError>)
    ensures r.Err? ==> r.error == OutOfFuel
    ensures r.Ok? ==> Grows(area, r.value)
    ensures r.Ok? && Bounded(area) ==> Bounded(r.value)
    decreases fuel
  {
    if fuel == 0 then Err(OutOfFuel)
    else
      var (next, hit) := StepPatrol(area);
      StepPatrolGrows(area);
      StepPatrolStaysBounded(area);
      if hit then PatrolUntilMiss(next, fuel - 1) else Ok(next)
  }

  /** `later` has the grid of `area` and everything `area` recorded. */
  predicate Grows(area: PatrolArea, later: PatrolArea) {
    && later.obstacles == area.obstacles && later.width == area.width && later.height == area.height
    && area.guard.distinctPositions <= later.guard.distinctPositions
    && area.guard.traveledDistance <= later.guard.traveledDistance
  }

  /** One step of the driver loop. */
  lemma PatrolUntilMissStep(area: PatrolArea, fuel: nat)
    requires 0 < fuel
    ensures var (next, hit) := StepPatrol(area);
            PatrolUntilMiss(area, fuel) == if hit then PatrolUntilMiss(next, fuel - 1) else Ok(next)
  {
  }

  /** A move keeps the grid and only adds recorded cells and distance. */
  lemma StepPatrolGrows(area: PatrolArea)
    ensures Grows(area, StepPatrol(area).0)
  {
    var g := area.guard;
    var hit := CastRay(area.obstacles, g.position, g.direction);
    var moved := MoveTo(g, hit, area.width, area.height);
    assert g.distinctPositions <= moved.distinctPositions;
  }

  /** `Day06::distinct_patrol_position_count` as written: the number of
      recorded cells minus one. */
  function DistinctPatrolPositionCount(area: PatrolArea, fuel: nat): (r: Result<nat, CountError>)
    ensures PatrolUntilMiss(area, fuel).Err? ==> r == Err(OutOfFuel)
    ensures PatrolUntilMiss(area, fuel).Ok? ==>
              var n := |PatrolUntilMiss(area, fuel).value.guard.distinctPositions|;
              if n == 0 then r == Err(CountUnderflow) else r.Ok? && r.value + 1 == n
  {
    match PatrolUntilMiss(area, fuel)
    case Err(e) => Err(e)
    case Ok(done) =>
      var n := |done.guard.distinctPositions|;
      if n == 0 then Err(CountUnderflow) else Ok(n - 1)
  }

  // ---------------------------------------------------------------------------
  // Staying near the grid
  // ---------------------------------------------------------------------------

  predicate InBox(p: Pos, width: nat, height: nat) {
    p.0 <= width && p.1 <= height
  }

  /** The guard, its recorded cells and the obstacles lie in the grid or on
      the row and column just past it. */
  predicate Bounded(area: PatrolArea) {
    && InBox(area.guard.position, area.width, area.height)
    && (forall c | c in area.guard.distinctPositions :: InBox(c, area.width, area.height))
    && (forall i | 0 <= i < |area.obstacles| :: InBox(area.obstacles[i].position, area.width, area.height))
  }

  /** One patrol move keeps everything in the box: this is why at most one
      recorded cell, the last one, can lie outside the grid. */
  lemma StepPatrolStaysBounded(area: PatrolArea)
    ensures Bounded(area) ==> Bounded(StepPatrol(area).0)
  {
    if !Bounded(area) { return; }
    var g := area.guard;
    var hit := CastRay(area.obstacles, g.position, g.direction);
    var moved := MoveTo(g, hit, area.width, area.height);
    if hit.Some? {
      var k :| 0 <= k < |area.obstacles| && area.obstacles[k] == hit.value;
    }
    assert InBox(moved.position, area.width, area.height);
    forall c | c in moved.distinctPositions ensures InBox(c, area.width, area.height) {
    }
  }

  // ---------------------------------------------------------------------------
  // Reading the grid
  // ---------------------------------------------------------------------------

  /** `p` names a character of `lines`: row `p.1`, column `p.0`. */
  predicate IsCell(lines: seq<string>, p: Pos) {
    p.1 < |lines| && p.0 < |lines[p.1]|
  }

  function At(lines: seq<string>, p: Pos): char
    requires IsCell(lines, p)
  {
    lines[p.1][p.0]
  }

  /** `p` comes before `q` in reading order: row by row, left to right. */
  predicate Earlier(p: Pos, q: Pos) {
    p.1 < q.1 || (p.1 == q.1 && p.0 < q.0)
  }

  /** `p` holds the first guard glyph of `lines` in reading order. */
  ghost predicate FirstGlyph(lines: seq<string>, p: Pos) {
    && IsCell(lines, p) && IsGuardGlyph(At(lines, p))
    && forall q: Pos | IsCell(lines, q) && Earlier(q, p) :: !IsGuardGlyph(At(lines, q))
  }

  /** No cell of `lines` holds a guard glyph. */
  ghost predicate NoGlyph(lines: seq<string>) {
    forall p: Pos | IsCell(lines, p) :: !IsGuardGlyph(At(lines, p))
  }

  /** What `PatrolArea::from_str` has gathered so far. */
  datatype Scan = Scan(guard: Option<(Pos, Direction)>, obstacles: seq<Obstacle>, width: nat, height: nat)

  /** One pass of the inner loop, on the character at column `x` of row
      `y`: the first guard glyph is taken, every `#` is an obstacle. */
  function ScanCell(lines: seq<string>, y: nat, x: nat, st: Scan): (r: Scan)
    requires IsCell(lines, (x, y))
    ensures r.width == st.width && r.height == st.height
  {
    var c := lines[y][x];
    var withGuard :=
      if st.guard.None? && DirectionFromGlyph(c).Ok? then st.(guard := Some(((x, y), DirectionFromGlyph(c).value)))
      else st;
    if c == '#' then withGuard.(obstacles := withGuard.obstacles + [Obstacle((x, y))]) else withGuard
  }

  /** The inner loop over `line.chars().enumerate()` of row `y`, from column
      `x` on. */
  function ScanLine(lines: seq<string>, y: nat, x: nat, st: Scan): (r: Scan)
    requires y < |lines| && x <= |lines[y]|
    ensures r.width == st.width && r.height == st.height
    decreases |lines[y]| - x
  {
    if x == |lines[y]| then st else ScanLine(lines, y, x + 1, ScanCell(lines, y, x, st))
  }

  /** The outer loop over `s.trim().lines().enumerate()`, from row `y` on:
      every row counts towards the height, and the width is the byte length
      of the first row whose byte length is not zero. */
  function ScanLines(lines: seq<string>, y: nat, st: Scan): (r: Scan)
    requires y <= |lines|
    ensures r.height == st.height + |lines| - y
    ensures st.width != 0 ==> r.width == st.width
    decreases |lines| - y
  {
    if y == |lines| then st
    else
      var sized := st.(height := st.height + 1, width := if st.width == 0 then Utf8Length(lines[y]) else st.width);
      ScanLines(lines, y + 1, ScanLine(lines, y, 0, sized))
  }

  /** `PatrolArea::from_str`. */
  function FromStr(s: string): (r: Result<PatrolArea, string>)
    ensures r.Err? ==> r.error == "Could not locate guard"
    ensures r.Ok? ==> r.value.height == |Lines(Trim(s))|
    ensures r.Ok? ==> r.value.guard.distinctPositions == {} && r.value.guard.traveledDistance == 0
  {
    var lines := Lines(Trim(s));
    var st := ScanLines(lines, 0, Scan(None, [], 0, 0));
    match st.guard
    case None => Err("Could not locate guard")
    case Some((p, d)) => Ok(PatrolArea(NewGuard(p, d), st.obstacles, st.width, st.height))
  }

  /** The obstacles gathered before `cursor`: exactly the `#` cells there,
      in reading order. */
  ghost predicate ObstaclesBefore(lines: seq<string>, cursor: Pos, obstacles: seq<Obstacle>) {
    && (forall i | 0 <= i < |obstacles| ::
          IsCell(lines, obstacles[i].position) && At(lines, obstacles[i].position) == '#'
          && Earlier(obstacles[i].position, cursor))
    && (forall p: Pos | IsCell(lines, p) && Earlier(p, cursor) && At(lines, p) == '#' :: Obstacle(p) in obstacles)
    && (forall i, j | 0 <= i < j < |obstacles| :: Earlier(obstacles[i].position, obstacles[j].position))
  }

  /** The guard found before `cursor`: none when there is no glyph there,
      otherwise the first glyph and its heading. */
  ghost predicate GuardBefore(lines: seq<string>, cursor: Pos, guard: Option<(Pos, Direction)>) {
    match guard
    case None => forall p: Pos | IsCell(lines, p) && Earlier(p, cursor) :: !IsGuardGlyph(At(lines, p))
    case Some((p, d)) => FirstGlyph(lines, p) && Earlier(p, cursor) && Glyph(d) == At(lines, p)
  }

  ghost predicate ScanBefore(lines: seq<string>, cursor: Pos, st: Scan) {
    ObstaclesBefore(lines, cursor, st.obstacles) && GuardBefore(lines, cursor, st.guard)
  }

  /** One character read keeps the scan faithful to everything before the
      cursor, which moves one column on. */
  lemma ScanCellKeeps(lines: seq<string>, y: nat, x: nat, st: Scan)
    requires IsCell(lines, (x, y)) && ScanBefore(lines, (x, y), st)
    ensures ScanBefore(lines, (x + 1, y), ScanCell(lines, y, x, st))
  {
    var r := ScanCell(lines, y, x, st);
    forall p: Pos | IsCell(lines, p) && Earlier(p, (x + 1, y))
      ensures p == (x, y) || Earlier(p, (x, y))
    {
    }
    if st.guard.Some? {
      assert r.guard == st.guard;
    }
  }

  lemma {:induction false} ScanLineKeeps(lines: seq<string>, y: nat, x: nat, st: Scan)
    requires y < |lines| && x <= |lines[y]| && ScanBefore(lines, (x, y), st)
    ensures ScanBefore(lines, (|lines[y]|, y), ScanLine(lines, y, x, st))
    decreases |lines[y]| - x
  {
    if x < |lines[y]| {
      ScanCellKeeps(lines, y, x, st);
      ScanLineKeeps(lines, y, x + 1, ScanCell(lines, y, x, st));
    }
  }

  /** The end of a row and the start of the next one have the same cells
      before them. */
  lemma RowEnd(lines: seq<string>, y: nat, st: Scan)
    requires y < |lines| && ScanBefore(lines, (|lines[y]|, y), st)
    ensures ScanBefore(lines, (0, y + 1), st)
  {
    forall p: Pos | IsCell(lines, p) && Earlier(p, (0, y + 1))
      ensures Earlier(p, (|lines[y]|, y))
    {
    }
  }

  lemma {:induction false} ScanLinesKeeps(lines: seq<string>, y: nat, st: Scan)
    requires y <= |lines| && ScanBefore(lines, (0, y), st)
    ensures ScanBefore(lines, (0, |lines|), ScanLines(lines, y, st))
    decreases |lines| - y
  {
    if y < |lines| {
      var sized := st.(height := st.height + 1, width := if st.width == 0 then Utf8Length(lines[y]) else st.width);
      assert ScanBefore(lines, (0, y), sized);
      ScanLineKeeps(lines, y, 0, sized);
      RowEnd(lines, y, ScanLine(lines, y, 0, sized));
      ScanLinesKeeps(lines, y + 1, ScanLine(lines, y, 0, sized));
    }
  }

  /** `from_str` fails exactly when the grid holds no guard glyph. */
  lemma FromStrFails(s: string)
    ensures FromStr(s).Err? <==> NoGlyph(Lines(Trim(s)))
  {
    var lines := Lines(Trim(s));
    var start := Scan(None, [], 0, 0);
    ScanLinesKeeps(lines, 0, start);
    var st := ScanLines(lines, 0, start);
    ScanComplete(lines, st);
    assert FromStr(s).Err? <==> st.guard.None?;
  }

  /** What `from_str` reads: the guard is the first glyph in reading order,
      facing the way it points; the obstacles are exactly the `#` cells, in
      reading order. */
  lemma FromStrReads(s: string, area: PatrolArea)
    requires FromStr(s) == Ok(area)
    ensures FirstGlyph(Lines(Trim(s)), area.guard.position)
    ensures Glyph(area.guard.direction) == At(Lines(Trim(s)), area.guard.position)
    ensures forall p: Pos :: Obstacle(p) in area.obstacles <==> IsCell(Lines(Trim(s)), p) && At(Lines(Trim(s)), p) == '#'
    ensures forall i, j | 0 <= i < j < |area.obstacles| ::
              Earlier(area.obstacles[i].position, area.obstacles[j].position)
  {
    var lines := Lines(Trim(s));
    var start := Scan(None, [], 0, 0);
    ScanLinesKeeps(lines, 0, start);
    var st := ScanLines(lines, 0, start);
    ScanComplete(lines, st);
    assert area.obstacles == st.obstacles;
    assert (area.guard.position, area.guard.direction) == st.guard.value;
  }

  /** A scan that is faithful to every row is faithful to the whole grid. */
  lemma ScanComplete(lines: seq<string>, st: Scan)
    requires ScanBefore(lines, (0, |lines|), st)
    ensures st.guard.None? <==> NoGlyph(lines)
    ensures st.guard.Some? ==>
              FirstGlyph(lines, st.guard.value.0) && Glyph(st.guard.value.1) == At(lines, st.guard.value.0)
    ensures forall p: Pos :: Obstacle(p) in st.obstacles <==> IsCell(lines, p) && At(lines, p) == '#'
  {
    forall p: Pos | IsCell(lines, p) ensures Earlier(p, (0, |lines|)) {
    }
    forall p: Pos | Obstacle(p) in st.obstacles ensures IsCell(lines, p) && At(lines, p) == '#' {
      var i :| 0 <= i < |st.obstacles| && st.obstacles[i] == Obstacle(p);
    }
  }

  /** Trimmed text that is not empty starts with a line that is not empty. */
  lemma FirstLineNotEmpty(t: string)
    requires 0 < |t| && !IsWhitespace(t[0])
    ensures 0 < |Lines(t)| && 0 < |Lines(t)[0]|
  {
    var n := LineEnd(t);
    if n < |t| {
      assert 0 < n;
      assert t[..n][0] == t[0];
    }
  }

  /** The width is the byte length of the first row, which a trimmed text
      never leaves empty. */
  lemma FromStrWidth(s: string)
    requires FromStr(s).Ok?
    ensures 0 < |Lines(Trim(s))| && FromStr(s).value.width == Utf8Length(Lines(Trim(s))[0])
  {
    var lines := Lines(Trim(s));
    var start := Scan(None, [], 0, 0);
    if |Trim(s)| != 0 {
      FirstLineNotEmpty(Trim(s));
    }
  }

  // ---------------------------------------------------------------------------
  // The count, as written and as intended
  // ---------------------------------------------------------------------------

  /** The cells of `cells` that lie inside a `width` by `height` grid. */
  function CellsInGrid(cells: set<Pos>, width: nat, height: nat): (r: set<Pos>)
    ensures r <= cells
    ensures forall c | c in cells :: c in r <==> c.0 < width && c.1 < height
  {
    set c | c in cells && c.0 < width && c.1 < height
  }

  /** The count the puzzle asks for: the grid cells the guard stood on,
      its starting cell included. */
  function CorrectedPositionCount(area: PatrolArea, fuel: nat): (r: Result<nat, CountError>)
    ensures r.Ok? <==> PatrolUntilMiss(area, fuel).Ok?
    ensures r.Ok? && area.guard.position.0 < area.width && area.guard.position.1 < area.height ==> 1 <= r.value
  {
    match PatrolUntilMiss(area, fuel)
    case Err(e) => Err(e)
    case Ok(done) =>
      var covered := CellsInGrid(done.guard.distinctPositions + {area.guard.position}, area.width, area.height);
      assert area.guard.position.0 < area.width && area.guard.position.1 < area.height ==> area.guard.position in covered;
      Ok(|covered|)
  }

  /** The count as written agrees with the intended one exactly in the
      case it was built for: the start cell was walked over again, and
      exactly one recorded cell, the exit, lies outside the grid. */
  lemma CountsAgreeWhenStartRevisited(area: PatrolArea, fuel: nat, done: PatrolArea)
    requires PatrolUntilMiss(area, fuel) == Ok(done)
    requires area.guard.position in done.guard.distinctPositions
    requires |done.guard.distinctPositions - CellsInGrid(done.guard.distinctPositions, area.width, area.height)| == 1
    ensures DistinctPatrolPositionCount(area, fuel) == CorrectedPositionCount(area, fuel)
  {
    RevisitedStartCount(done.guard.distinctPositions, area.guard.position, area.width, area.height);
  }

  /** The set arithmetic behind `CountsAgreeWhenStartRevisited`. */
  lemma RevisitedStartCount(visited: set<Pos>, start: Pos, width: nat, height: nat)
    requires start in visited
    requires |visited - CellsInGrid(visited, width, height)| == 1
    ensures |visited| - 1 == |CellsInGrid(visited + {start}, width, height)|
  {
    var inside := CellsInGrid(visited, width, height);
    assert visited + {start} == visited;
    assert visited == inside + (visited - inside);
    assert |visited| == |inside| + |visited - inside|;
  }

  /** Counting the grid cells of `visited` with `start` added, against
      counting `visited` itself: the first adds the start cell when it lies
      in the grid and is missing, the second includes the cells off the
      grid. */
  lemma StartAndExitCount(visited: set<Pos>, start: Pos, width: nat, height: nat)
    ensures |CellsInGrid(visited + {start}, width, height)| + |visited - CellsInGrid(visited, width, height)|
            == |visited| + (if start !in visited && start.0 < width && start.1 < height then 1 else 0)
  {
    var inside := CellsInGrid(visited, width, height);
    assert visited == inside + (visited - inside);
    assert |visited| == |inside| + |visited - inside|;
    if start in visited {
      assert visited + {start} == visited;
    } else if start.0 < width && start.1 < height {
      assert CellsInGrid(visited + {start}, width, height) == inside + {start};
    } else {
      assert CellsInGrid(visited + {start}, width, height) == inside;
    }
  }

  /** What the count as written gets wrong, for every finished patrol: it
      subtracts 1 whatever was recorded, leaves out the start cell when the
      guard never came back to it, and counts the recorded cells that lie
      off the grid. */
  lemma CountsDiffer(area: PatrolArea, fuel: nat, done: PatrolArea)
    requires PatrolUntilMiss(area, fuel) == Ok(done)
    ensures var rec := done.guard.distinctPositions;
            var s := area.guard.position;
            CorrectedPositionCount(area, fuel).value + |rec - CellsInGrid(rec, area.width, area.height)|
            == |rec| + (if s !in rec && s.0 < area.width && s.1 < area.height then 1 else 0)
    ensures var rec := done.guard.distinctPositions;
            var s := area.guard.position;
            DistinctPatrolPositionCount(area, fuel).Ok? ==>
              DistinctPatrolPositionCount(area, fuel).value + 1
              + (if s !in rec && s.0 < area.width && s.1 < area.height then 1 else 0)
              == CorrectedPositionCount(area, fuel).value + |rec - CellsInGrid(rec, area.width, area.height)|
  {
    StartAndExitCount(done.guard.distinctPositions, area.guard.position, area.width, area.height);
  }

  /** The two lines `.` and `^`. */
  const TwoRows: string := ".\n^"

  /** The grid of `TwoRows`: a guard heading north from the lower of two
      cells, no obstacles. */
  const TwoRowsArea: PatrolArea := PatrolArea(NewGuard((0, 1), North), [], 1, 2)

  lemma TwoRowsLines()
    ensures Lines(TwoRows) == [".", "^"]
  {
    assert TwoRows == "." + "\n" + "^";
    LinesCons(".", "^");
    assert StripCr(".") == ".";
    LoneGuardOneLine();
  }

  lemma TwoRowsTrim()
    ensures Trim(TwoRows) == TwoRows
  {
    assert LeadingWhitespace(TwoRows) == 0;
    assert TrailingWhitespace(TwoRows) == 0;
  }

  lemma TwoRowsParse()
    ensures FromStr(TwoRows) == Ok(TwoRowsArea)
  {
    TwoRowsTrim();
    TwoRowsLines();
    TwoRowsScan();
  }

  lemma TwoRowsScan()
    ensures ScanLines([".", "^"], 0, Scan(None, [], 0, 0)) == Scan(Some(((0, 1), North)), [], 1, 2)
  {
    var lines := [".", "^"];
    assert Utf8Length(".") == 1;
    var first := ScanLine(lines, 0, 0, Scan(None, [], 1, 1));
    assert first == Scan(None, [], 1, 1);
    var second := ScanLine(lines, 1, 0, Scan(None, [], 1, 2));
    assert second == Scan(Some(((0, 1), North)), [], 1, 2);
  }

  /** On `TwoRows` the guard walks up one cell and leaves: the count as
      written is 0, while the guard covered both cells. */
  lemma TwoRowsCountMissesStart()
    ensures DistinctPatrolPositionCount(TwoRowsArea, 1) == Ok(0)
    ensures CorrectedPositionCount(TwoRowsArea, 1) == Ok(2)
  {
    var area := TwoRowsArea;
    assert CastRay([], (0, 1), North) == None;
    var moved := MoveTo(area.guard, None, 1, 2);
    assert moved.distinctPositions == {(0, 0)};
    assert PatrolUntilMiss(area, 1) == Ok(area.(guard := moved));
    var covered := {(0, 0), (0, 1)};
    assert moved.distinctPositions + {area.guard.position} == covered;
    assert CellsInGrid(covered, 1, 2) == covered;
    assert |covered| == 2;
  }

  /** The grid `^`: a guard alone on one cell, heading north. */
  const LoneGuardArea: PatrolArea := PatrolArea(NewGuard((0, 0), North), [], 1, 1)

  lemma LoneGuardParse()
    ensures FromStr("^") == Ok(LoneGuardArea)
  {
    LoneGuardLines();
    LoneGuardScan();
  }

  lemma LoneGuardLines()
    ensures Trim("^") == "^" && Lines("^") == ["^"]
  {
    assert LeadingWhitespace("^") == 0 && TrailingWhitespace("^") == 0;
    assert Trim("^") == "^";
    LoneGuardOneLine();
  }

  lemma LoneGuardOneLine()
    ensures Lines("^") == ["^"]
  {
    assert LineEnd("^") == 1;
  }

  lemma LoneGuardScan()
    ensures ScanLines(["^"], 0, Scan(None, [], 0, 0)) == Scan(Some(((0, 0), North)), [], 1, 1)
  {
    assert Utf8Length("^") == 1;
    assert ScanLine(["^"], 0, 0, Scan(None, [], 1, 1)) == Scan(Some(((0, 0), North)), [], 1, 1);
  }

  /** A guard alone on a one-cell grid records nothing: the count as written
      subtracts one from zero, a `usize` underflow, while the guard covered
      its own cell. */
  lemma LoneGuardUnderflows()
    ensures DistinctPatrolPositionCount(LoneGuardArea, 1) == Err(CountUnderflow)
    ensures CorrectedPositionCount(LoneGuardArea, 1) == Ok(1)
  {
    var area := LoneGuardArea;
    assert CastRay([], (0, 0), North) == None;
    var moved := MoveTo(area.guard, None, 1, 1);
    assert moved.distinctPositions == {};
    assert PatrolUntilMiss(area, 1) == Ok(area.(guard := moved));
    assert CellsInGrid({(0, 0)}, 1, 1) == {(0, 0)};
  }
}
