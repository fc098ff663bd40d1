/** Robots patrolling a 101 by 103 floor whose edges wrap around: one second
    of movement, the quadrant safety score, the printed count grid of the
    first challenge and the occupancy frames of the second. */
module Robots {
  import opened Seqs
  import opened Options
  import opened Text
  import opened Numbers
  import opened Grids

  const GridWidth: nat := 101
  const GridHeight: nat := 103

  datatype Robot = Robot(position: Pos, vx: int, vy: int)

  // ---------------------------------------------------------------------
  // Wrapping arithmetic

  /** `x + q m` and `x` leave the same Euclidean remainder. */
  lemma {:induction false} ModShift(x: int, q: int, m: int)
    requires m > 0
    ensures (x + q * m) % m == x % m
    decreases if q < 0 then -q else q
  {
    if q > 0 {
      ModShift(x, q - 1, m);
      ModStep(x + (q - 1) * m, m);
      assert x + q * m == x + (q - 1) * m + m;
    } else if q < 0 {
      ModShift(x, q + 1, m);
      ModStep(x + q * m, m);
      assert x + (q + 1) * m == x + q * m + m;
    }
  }

  lemma ModStep(a: int, m: int)
    requires m > 0
    ensures (a + m) % m == a % m
  {
    var d, r := a / m, a % m;
    assert a + m == (d + 1) * m + r;
    DivModUnique(d + 1, r, m, a + m);
  }

  /** Adding after taking the remainder is adding before it. */
  lemma ModAddMod(a: int, b: int, m: int)
    requires m > 0
    ensures (a % m + b) % m == (a + b) % m
  {
    assert a % m + b == (a + b) + (-(a / m)) * m;
    ModShift(a + b, -(a / m), m);
  }

  /** normalizeNumber: brings back a coordinate that has stepped off the
      grid by less than one grid length. Within that reach the result is
      the Euclidean remainder; a coordinate further out is not brought back
      onto the grid. */
  function Normalize(n: int, max: int): (r: int)
    ensures max > 0 && -max <= n < 2 * max ==> 0 <= r < max && r % max == n % max
    ensures max > 0 && n < -max ==> r < 0
    ensures max > 0 && n >= 2 * max ==> r >= max
  {
    if n < 0 then
      assert max > 0 ==> (n + max) % max == n % max by {
        if max > 0 { ModStep(n, max); }
      }
      max - Abs(n)
    else if n >= max then
      assert max > 0 ==> n % max == (n - max) % max by {
        if max > 0 { ModStep(n - max, max); }
      }
      n - max
    else
      n
  }

  /** Within one grid length of the edges normalizeNumber is `n mod max`. */
  lemma NormalizeIsMod(n: int, max: int)
    requires max > 0 && -max <= n < 2 * max
    ensures Normalize(n, max) == n % max
  {
    var r := Normalize(n, max);
    DivModUnique(0, r, max, r);
  }

  // ---------------------------------------------------------------------
  // Movement

  predicate OnGrid(p: Pos)
  {
    0 <= p.x < GridWidth && 0 <= p.y < GridHeight
  }

  /** A robot the wrapping keeps on the grid: it stands on the grid and
      covers at most one grid length per second along either axis. */
  predicate Tame(robot: Robot)
  {
    OnGrid(robot.position) &&
    -(GridWidth as int) <= robot.vx <= GridWidth && -(GridHeight as int) <= robot.vy <= GridHeight
  }

  /** moveRobot: one second of movement, wrapping at the edges; the velocity
      is kept. */
  function MoveRobot(robot: Robot): (r: Robot)
    ensures r.vx == robot.vx && r.vy == robot.vy
    ensures Tame(robot) ==> Tame(r)
    ensures Tame(robot) ==> r.position == Pos((robot.position.x + robot.vx) % GridWidth,
                                              (robot.position.y + robot.vy) % GridHeight)
  {
    var x := robot.position.x + robot.vx;
    var y := robot.position.y + robot.vy;
    if Tame(robot) then
      NormalizeIsMod(x, GridWidth);
      NormalizeIsMod(y, GridHeight);
      robot.(position := Pos(Normalize(x, GridWidth), Normalize(y, GridHeight)))
    else
      robot.(position := Pos(Normalize(x, GridWidth), Normalize(y, GridHeight)))
  }

  /** `k` seconds of movement. */
  function MoveTimes(robot: Robot, k: nat): Robot
  {
    if k == 0 then robot else MoveRobot(MoveTimes(robot, k - 1))
  }

  /** After `k` seconds a tame robot stands at its start plus `k` times its
      velocity, wrapped onto the grid. */
  lemma {:induction false} MoveTimesWraps(robot: Robot, k: nat)
    requires Tame(robot)
    ensures var r := MoveTimes(robot, k);
            Tame(r) && r.vx == robot.vx && r.vy == robot.vy &&
            r.position == Pos((robot.position.x + k * robot.vx) % GridWidth,
                              (robot.position.y + k * robot.vy) % GridHeight)
  {
    if k > 0 {
      MoveTimesWraps(robot, k - 1);
      var q := MoveTimes(robot, k - 1);
      WrapAdvance(robot.position.x, robot.vx, k, GridWidth, q.position.x);
      WrapAdvance(robot.position.y, robot.vy, k, GridHeight, q.position.y);
    }
  }

  /** One more second on top of `k - 1` wrapped seconds. */
  lemma WrapAdvance(start: int, v: int, k: nat, m: int, cur: int)
    requires m > 0 && k >= 1 && cur == (start + (k - 1) * v) % m
    ensures (cur + v) % m == (start + k * v) % m
  {
    ModAddMod(start + (k - 1) * v, v, m);
    assert start + (k - 1) * v + v == start + k * v;
  }

  /** Every tame robot is back at its start after `101 * 103` seconds, so a
      simulation of that many seconds has seen every arrangement there is. */
  lemma MovePeriod(robot: Robot, k: nat)
    requires Tame(robot) && k == GridWidth * GridHeight
    ensures MoveTimes(robot, k) == robot
  {
    MoveTimesWraps(robot, k);
    WrapsBack(robot.position.x, robot.vx, GridWidth, GridHeight, k);
    WrapsBack(robot.position.y, robot.vy, GridHeight, GridWidth, k);
  }

  /** `n` seconds bring a coordinate back when `n` is a multiple of `m`. */
  lemma WrapsBack(start: int, v: int, m: int, other: int, n: int)
    requires m > 0 && 0 <= start < m && n == m * other
    ensures (start + n * v) % m == start
  {
    assert start + n * v == start + (other * v) * m;
    ModShift(start, other * v, m);
    DivModUnique(0, start, m, start);
  }

  /** `robots.map(moveRobot)`. */
  function MoveAll(robots: seq<Robot>): (r: seq<Robot>)
    ensures |r| == |robots|
  {
    seq(|robots|, i requires 0 <= i < |robots| => MoveRobot(robots[i]))
  }

  function MoveAllTimes(robots: seq<Robot>, k: nat): seq<Robot>
  {
    if k == 0 then robots else MoveAll(MoveAllTimes(robots, k - 1))
  }

  /** Moving the whole line `k` times keeps its length and order: the robot
      at index `i` is the one that started there, moved `k` times. */
  lemma {:induction false} MoveAllTimesEach(robots: seq<Robot>, k: nat)
    ensures |MoveAllTimes(robots, k)| == |robots|
    ensures forall i :: 0 <= i < |robots| ==> MoveAllTimes(robots, k)[i] == MoveTimes(robots[i], k)
  {
    if k > 0 {
      MoveAllTimesEach(robots, k - 1);
    }
  }

  predicate AllTame(robots: seq<Robot>)
  {
    forall i :: 0 <= i < |robots| ==> Tame(robots[i])
  }

  lemma AllTameMoved(robots: seq<Robot>, k: nat)
    requires AllTame(robots)
    ensures AllTame(MoveAllTimes(robots, k))
  {
    MoveAllTimesEach(robots, k);
    forall i | 0 <= i < |robots| ensures Tame(MoveAllTimes(robots, k)[i]) {
      MoveTimesWraps(robots[i], k);
    }
  }

  /** moveAllRobots100Times of the first challenge. */
  method MoveAll100(robots: seq<Robot>) returns (moved: seq<Robot>)
    ensures |moved| == |robots|
    ensures forall i :: 0 <= i < |robots| ==> moved[i] == MoveTimes(robots[i], 100)
  {
    moved := robots;
    var i := 0;
    while i < 100
      invariant 0 <= i <= 100
      invariant moved == MoveAllTimes(robots, i)
    {
      moved := MoveAll(moved);
      i := i + 1;
    }
    MoveAllTimesEach(robots, 100);
  }

  // ---------------------------------------------------------------------
  // Quadrants and the safety score

  /** `Math.floor(GRID_WIDTH / 2)` and `Math.ceil(GRID_WIDTH / 2)`, and the
      same for the height: the middle column and row belong to no quadrant. */
  const LeftEnd: int := GridWidth / 2
  const RightStart: int := (GridWidth + 1) / 2
  const TopEnd: int := GridHeight / 2
  const BottomStart: int := (GridHeight + 1) / 2

  datatype Quad = TopLeft | TopRight | BottomLeft | BottomRight

  predicate InTopLeft(robot: Robot)
  {
    robot.position.x < LeftEnd && robot.position.y < TopEnd
  }

  predicate InTopRight(robot: Robot)
  {
    robot.position.x >= RightStart && robot.position.y < TopEnd
  }

  predicate InBottomLeft(robot: Robot)
  {
    robot.position.x < LeftEnd && robot.position.y >= BottomStart
  }

  predicate InBottomRight(robot: Robot)
  {
    robot.position.x >= RightStart && robot.position.y >= BottomStart
  }

  predicate InQuad(robot: Robot, q: Quad)
  {
    match q
    case TopLeft => InTopLeft(robot)
    case TopRight => InTopRight(robot)
    case BottomLeft => InBottomLeft(robot)
    case BottomRight => InBottomRight(robot)
  }

  /** getQuad: the quadrant holding the robot, if any. The four quadrant
      tests never overlap, so the answer is the one quadrant whose test
      holds; a robot on column 50 or row 51 is in none. */
  function GetQuad(robot: Robot): (r: Option<Quad>)
    ensures forall q :: r == Some(q) <==> InQuad(robot, q)
    ensures r == None <==> robot.position.x == 50 || robot.position.y == 51
  {
    if InTopLeft(robot) then Some(TopLeft)
    else if InTopRight(robot) then Some(TopRight)
    else if InBottomLeft(robot) then Some(BottomLeft)
    else if InBottomRight(robot) then Some(BottomRight)
    else None
  }

  /** The accumulator of the `reduce` in getSafetyScore. */
  datatype Tally = Tally(topLeft: nat, topRight: nat, bottomLeft: nat, bottomRight: nat)
  {
    function Get(q: Quad): nat
    {
      match q
      case TopLeft => topLeft
      case TopRight => topRight
      case BottomLeft => bottomLeft
      case BottomRight => bottomRight
    }

    function Bump(q: Quad): (t: Tally)
      ensures t.Get(q) == Get(q) + 1
      ensures forall o :: o != q ==> t.Get(o) == Get(o)
    {
      match q
      case TopLeft => this.(topLeft := topLeft + 1)
      case TopRight => this.(topRight := topRight + 1)
      case BottomLeft => this.(bottomLeft := bottomLeft + 1)
      case BottomRight => this.(bottomRight := bottomRight + 1)
    }
  }

  /** One step of the reduce: a robot in no quadrant leaves the tally alone. */
  function Tallied(acc: Tally, robot: Robot): Tally
  {
    match GetQuad(robot)
    case Some(q) => acc.Bump(q)
    case None => acc
  }

  /** The reduce, from the first robot to the last. */
  function TallyFrom(acc: Tally, robots: seq<Robot>): Tally
    decreases |robots|
  {
    if |robots| == 0 then acc else TallyFrom(Tallied(acc, robots[0]), robots[1..])
  }

  /** How many robots stand in quadrant `q`. */
  function CountIn(robots: seq<Robot>, q: Quad): nat
  {
    if |robots| == 0 then 0
    else (if GetQuad(robots[0]) == Some(q) then 1 else 0) + CountIn(robots[1..], q)
  }

  /** How many robots stand in no quadrant. */
  function CountNone(robots: seq<Robot>): nat
  {
    if |robots| == 0 then 0
    else (if GetQuad(robots[0]).None? then 1 else 0) + CountNone(robots[1..])
  }

  /** The reduce adds, per quadrant, the number of robots standing in it. */
  lemma {:induction false} TallyCounts(acc: Tally, robots: seq<Robot>, q: Quad)
    ensures TallyFrom(acc, robots).Get(q) == acc.Get(q) + CountIn(robots, q)
    decreases |robots|
  {
    if |robots| > 0 {
      TallyCounts(Tallied(acc, robots[0]), robots[1..], q);
    }
  }

  /** Every robot is counted in exactly one quadrant or in none. */
  lemma {:induction false} CountsPartition(robots: seq<Robot>)
    ensures CountIn(robots, TopLeft) + CountIn(robots, TopRight) + CountIn(robots, BottomLeft)
            + CountIn(robots, BottomRight) + CountNone(robots) == |robots|
  {
    if |robots| > 0 {
      CountsPartition(robots[1..]);
    }
  }

  const NoRobots: Tally := Tally(0, 0, 0, 0)

  /** getSafetyScore. */
  function SafetyScore(robots: seq<Robot>): nat
  {
    var t := TallyFrom(NoRobots, robots);
    t.topLeft * t.topRight * t.bottomLeft * t.bottomRight
  }

  /** The safety score is the product of the four quadrant populations. */
  lemma SafetyScoreIsProduct(robots: seq<Robot>)
    ensures SafetyScore(robots) == CountIn(robots, TopLeft) * CountIn(robots, TopRight)
                                   * CountIn(robots, BottomLeft) * CountIn(robots, BottomRight)
  {
    TallyCounts(NoRobots, robots, TopLeft);
    TallyCounts(NoRobots, robots, TopRight);
    TallyCounts(NoRobots, robots, BottomLeft);
    TallyCounts(NoRobots, robots, BottomRight);
  }

  /** The score is 0 exactly when some quadrant is empty. */
  lemma SafetyScoreZero(robots: seq<Robot>)
    ensures SafetyScore(robots) == 0 <==> exists q :: CountIn(robots, q) == 0
  {
    SafetyScoreIsProduct(robots);
    var a, b, c, d := CountIn(robots, TopLeft), CountIn(robots, TopRight),
                      CountIn(robots, BottomLeft), CountIn(robots, BottomRight);
    if a > 0 && b > 0 && c > 0 && d > 0 {
      ProductPositive(a, b, c, d);
      forall q ensures CountIn(robots, q) > 0 {
        match q
        case TopLeft =>
        case TopRight =>
        case BottomLeft =>
        case BottomRight =>
      }
    } else if a == 0 {
      assert CountIn(robots, TopLeft) == 0;
    } else if b == 0 {
      assert CountIn(robots, TopRight) == 0;
    } else if c == 0 {
      assert CountIn(robots, BottomLeft) == 0;
    } else {
      assert CountIn(robots, BottomRight) == 0;
    }
  }

  lemma ProductPositive(a: nat, b: nat, c: nat, d: nat)
    requires a > 0 && b > 0 && c > 0 && d > 0
    ensures a * b * c * d > 0
  {
    MulAtLeast(b, a);
    MulAtLeast(c, a * b);
    MulAtLeast(d, a * b * c);
  }

  // ---------------------------------------------------------------------
  // Plotting

  /** The grid of robot counts, `GRID_HEIGHT` rows of `GRID_WIDTH` cells. */
  type Counts = seq<seq<nat>>

  predicate Shaped<T>(g: seq<seq<T>>)
  {
    |g| == GridHeight && forall y :: 0 <= y < |g| ==> |g[y]| == GridWidth
  }

  function EmptyCounts(): (g: Counts)
    ensures Shaped(g)
  {
    seq(GridHeight, y => seq(GridWidth, x => 0))
  }

  /** One robot more on `p`. */
  function OneMore(g: Counts, p: Pos): (h: Counts)
    requires Shaped(g) && OnGrid(p)
    ensures Shaped(h)
  {
    g[p.y := g[p.y][p.x := g[p.y][p.x] + 1]]
  }

  /** The `forEach` of plotRobots, robot by robot. A position off the grid
      makes the source index a missing row, so every robot must be on it. */
  function CountGrid(robots: seq<Robot>): (g: Counts)
    requires forall i :: 0 <= i < |robots| ==> OnGrid(robots[i].position)
    ensures Shaped(g)
  {
    if |robots| == 0 then EmptyCounts()
    else OneMore(CountGrid(robots[..|robots| - 1]), robots[|robots| - 1].position)
  }

  /** How many robots stand on `p`. */
  function CountAt(robots: seq<Robot>, p: Pos): nat
  {
    if |robots| == 0 then 0
    else CountAt(robots[..|robots| - 1], p) + (if robots[|robots| - 1].position == p then 1 else 0)
  }

  /** Each cell of the grid counts the robots standing on it. */
  lemma {:induction false} CountGridMeaning(robots: seq<Robot>, x: nat, y: nat)
    requires forall i :: 0 <= i < |robots| ==> OnGrid(robots[i].position)
    requires x < GridWidth && y < GridHeight
    ensures CountGrid(robots)[y][x] == CountAt(robots, Pos(x, y))
  {
    if |robots| > 0 {
      CountGridMeaning(robots[..|robots| - 1], x, y);
    }
  }

  function RowTotals(g: Counts): (r: seq<int>)
    ensures |r| == |g|
  {
    seq(|g|, i requires 0 <= i < |g| => Sum(g[i]))
  }

  /** The number of robots the grid records. */
  function Total(g: Counts): int
  {
    Sum(RowTotals(g))
  }

  lemma {:induction false} SumBump(s: seq<int>, i: nat)
    requires i < |s|
    ensures Sum(s[i := s[i] + 1]) == Sum(s) + 1
  {
    if i > 0 {
      SumBump(s[1..], i - 1);
      assert s[i := s[i] + 1][1..] == s[1..][i - 1 := s[i] + 1];
    }
  }

  lemma OneMoreTotal(g: Counts, p: Pos)
    requires Shaped(g) && OnGrid(p)
    ensures Total(OneMore(g, p)) == Total(g) + 1
  {
    var row := g[p.y];
    SumBump(row, p.x);
    assert RowTotals(OneMore(g, p)) == RowTotals(g)[p.y := Sum(row) + 1];
    SumBump(RowTotals(g), p.y);
  }

  lemma {:induction false} SumZeros(n: nat)
    ensures Sum(seq(n, i => 0)) == 0
  {
    if n > 0 {
      assert seq(n, i => 0)[1..] == seq(n - 1, i => 0);
      SumZeros(n - 1);
    }
  }

  /** The cell counts add up to the number of robots. */
  lemma {:induction false} CountGridTotal(robots: seq<Robot>)
    requires forall i :: 0 <= i < |robots| ==> OnGrid(robots[i].position)
    ensures Total(CountGrid(robots)) == |robots|
  {
    if |robots| == 0 {
      SumZeros(GridWidth);
      assert RowTotals(EmptyCounts()) == seq(GridHeight, i => 0);
      SumZeros(GridHeight);
    } else {
      CountGridTotal(robots[..|robots| - 1]);
      OneMoreTotal(CountGrid(robots[..|robots| - 1]), robots[|robots| - 1].position);
    }
  }

  /** A count as the first challenge prints it: `.` for none, else the
      decimal count. */
  function CellText(v: nat): (s: string)
    ensures s == "." <==> v == 0
    ensures v < 10 ==> |s| == 1
  {
    if v == 0 then "." else NatToString(v)
  }

  function Concat(parts: seq<string>): string
  {
    if |parts| == 0 then "" else parts[0] + Concat(parts[1..])
  }

  function RowText(row: seq<nat>): string
  {
    Concat(seq(|row|, i requires 0 <= i < |row| => CellText(row[i])))
  }

  /** When no cell holds ten robots or more, a printed row has one character
      per cell, and that character is `.` exactly when the cell is empty. */
  lemma {:induction false} RowTextReadable(row: seq<nat>)
    requires forall i :: 0 <= i < |row| ==> row[i] < 10
    ensures |RowText(row)| == |row|
    ensures forall i :: 0 <= i < |row| ==> (RowText(row)[i] == '.' <==> row[i] == 0)
  {
    if |row| > 0 {
      RowTextReadable(row[1..]);
      var cells := seq(|row|, i requires 0 <= i < |row| => CellText(row[i]));
      assert cells[1..] == seq(|row| - 1, i requires 0 <= i < |row| - 1 => CellText(row[1..][i]));
      assert RowText(row) == CellText(row[0]) + RowText(row[1..]);
      forall i | 0 <= i < |row| ensures RowText(row)[i] == '.' <==> row[i] == 0 {
        if i == 0 {
          if row[0] != 0 {
            assert IsDigit(CellText(row[0])[0]);
          }
        } else {
          assert RowText(row)[i] == RowText(row[1..])[i - 1];
        }
      }
    }
  }

  /** plotRobots of the first challenge: the printed rows joined by line
      breaks. */
  function PlotRobots(robots: seq<Robot>): string
    requires forall i :: 0 <= i < |robots| ==> OnGrid(robots[i].position)
  {
    var g := CountGrid(robots);
    Join(seq(|g|, y requires 0 <= y < |g| => RowText(g[y])), "\n")
  }

  /** The printed plot has one line per grid row, and each line is that
      row's text. */
  lemma PlotLines(robots: seq<Robot>)
    requires forall i :: 0 <= i < |robots| ==> OnGrid(robots[i].position)
    ensures var lines := Split(PlotRobots(robots), "\n");
            |lines| == GridHeight &&
            forall y :: 0 <= y < GridHeight ==> lines[y] == RowText(CountGrid(robots)[y])
  {
    var g := CountGrid(robots);
    var rows := seq(|g|, y requires 0 <= y < |g| => RowText(g[y]));
    forall y | 0 <= y < |rows| ensures '\n' !in rows[y] {
      RowTextNoBreak(g[y]);
    }
    SplitJoin(rows, "\n");
  }

  lemma {:induction false} RowTextNoBreak(row: seq<nat>)
    ensures '\n' !in RowText(row)
  {
    if |row| > 0 {
      RowTextNoBreak(row[1..]);
      var cells := seq(|row|, i requires 0 <= i < |row| => CellText(row[i]));
      assert cells[1..] == seq(|row| - 1, i requires 0 <= i < |row| - 1 => CellText(row[1..][i]));
      assert RowText(row) == CellText(row[0]) + RowText(row[1..]);
    }
  }

  /** The first challenge: the safety score after 100 seconds. */
  method SafetyAfter100(robots: seq<Robot>) returns (score: nat)
    ensures score == CountIn(MoveAllTimes(robots, 100), TopLeft) * CountIn(MoveAllTimes(robots, 100), TopRight)
                     * CountIn(MoveAllTimes(robots, 100), BottomLeft) * CountIn(MoveAllTimes(robots, 100), BottomRight)
  {
    var moved := MoveAll100(robots);
    MoveAllTimesEach(robots, 100);
    assert moved == MoveAllTimes(robots, 100);
    SafetyScoreIsProduct(moved);
    score := SafetyScore(moved);
  }

  // ---------------------------------------------------------------------
  // The second challenge: occupancy frames

  const Filled: char := '\U{25A0}'

  /** plotRobots of the second challenge: a filled square where at least one
      robot stands, a blank elsewhere. */
  function Occupancy(robots: seq<Robot>): (r: seq<seq<char>>)
    requires forall i :: 0 <= i < |robots| ==> OnGrid(robots[i].position)
    ensures Shaped(r)
  {
    var g := CountGrid(robots);
    seq(GridHeight, y requires 0 <= y < GridHeight =>
      seq(GridWidth, x requires 0 <= x < GridWidth => if g[y][x] == 0 then ' ' else Filled))
  }

  lemma OccupancyMeaning(robots: seq<Robot>, x: nat, y: nat)
    requires forall i :: 0 <= i < |robots| ==> OnGrid(robots[i].position)
    requires x < GridWidth && y < GridHeight
    ensures Occupancy(robots)[y][x] == Filled <==> CountAt(robots, Pos(x, y)) > 0
    ensures Occupancy(robots)[y][x] == ' ' <==> CountAt(robots, Pos(x, y)) == 0
  {
    CountGridMeaning(robots, x, y);
  }

  /** The JavaScript `%`: the remainder takes the sign of the dividend. */
  function JsRem(a: int, m: int): (r: int)
    requires m > 0
    ensures -m < r < m
    ensures a >= 0 ==> r >= 0
    ensures a < 0 ==> r <= 0
  {
    if a >= 0 then a % m else -((-a) % m)
  }

  const FrameOffset: nat := 50
  const FramePeriod: nat := 103
  /** The loop runs `i` from 1 while `i < 10_404`. */
  const LastStep: nat := 10403

  /** The frame test `(i - 50) % 103 === 0`. */
  predicate ShowsFrame(i: int)
  {
    JsRem(i - FrameOffset, FramePeriod) == 0
  }

  /** A frame is shown exactly at the seconds congruent to 50 modulo 103. */
  lemma ShowsFrameMeaning(i: int)
    ensures ShowsFrame(i) <==> (i - FrameOffset) % FramePeriod == 0
  {
    var a := i - FrameOffset;
    if a < 0 && (-a) % FramePeriod == 0 {
      var k := (-a) / FramePeriod;
      assert a == (-k) * FramePeriod + 0;
      DivModUnique(-k, 0, FramePeriod, a);
    } else if a < 0 && a % FramePeriod == 0 {
      var k := a / FramePeriod;
      assert -a == (-k) * FramePeriod + 0;
      DivModUnique(-k, 0, FramePeriod, -a);
    }
  }

  /** The number of frames shown before second `i`, for `i >= 1`. */
  function FramesBefore(i: nat): nat
  {
    (i + 52) / FramePeriod
  }

  lemma FramesStep(i: nat)
    requires i >= 1
    ensures ShowsFrame(i) ==> FramesBefore(i + 1) == FramesBefore(i) + 1 && i == FrameOffset + FramePeriod * FramesBefore(i)
    ensures !ShowsFrame(i) ==> FramesBefore(i + 1) == FramesBefore(i)
  {
    ShowsFrameMeaning(i);
    var q, r := (i + 52) / FramePeriod, (i + 52) % FramePeriod;
    if r == FramePeriod - 1 {
      assert i + 53 == (q + 1) * FramePeriod + 0;
      DivModUnique(q + 1, 0, FramePeriod, i + 53);
      assert i - FrameOffset == (q - 1) * FramePeriod + 1 * FramePeriod;
      ModShift(0, q, FramePeriod);
      assert (i - FrameOffset) % FramePeriod == 0;
    } else {
      assert i + 53 == q * FramePeriod + (r + 1);
      DivModUnique(q, r + 1, FramePeriod, i + 53);
      assert i - FrameOffset == (r + 1) + (q - 1) * FramePeriod;
      ModShift(r + 1, q - 1, FramePeriod);
      DivModUnique(0, r + 1, FramePeriod, r + 1);
    }
  }

  datatype Frame = Frame(second: nat, picture: seq<seq<char>>)

  /** The simulation of the second challenge: 10403 seconds of movement,
      with the occupancy picture kept at every second the frame test
      selects. Frame `j` is second `50 + 103 j`; there are 101 of them. */
  method Simulate(robots: seq<Robot>) returns (frames: seq<Frame>, last: seq<Robot>)
    requires AllTame(robots)
    ensures last == MoveAllTimes(robots, LastStep) && |last| == |robots|
    ensures |frames| == 101
    ensures forall j :: 0 <= j < |frames| ==>
              frames[j].second == FrameOffset + FramePeriod * j &&
              AllTame(MoveAllTimes(robots, frames[j].second)) &&
              frames[j].picture == Occupancy(MoveAllTimes(robots, frames[j].second))
  {
    var moved := robots;
    frames := [];
    var i := 1;
    while i < LastStep + 1
      invariant 1 <= i <= LastStep + 1
      invariant moved == MoveAllTimes(robots, i - 1) && AllTame(moved)
      invariant |frames| == FramesBefore(i)
      invariant forall j :: 0 <= j < |frames| ==>
                  frames[j].second == FrameOffset + FramePeriod * j &&
                  AllTame(MoveAllTimes(robots, frames[j].second)) &&
                  frames[j].picture == Occupancy(MoveAllTimes(robots, frames[j].second))
    {
      moved := MoveAll(moved);
      AllTameMoved(robots, i);
      FramesStep(i);
      if ShowsFrame(i) {
        frames := frames + [Frame(i, Occupancy(moved))];
      }
      i := i + 1;
    }
    last := moved;
    MoveAllTimesEach(robots, LastStep);
  }

  /** After the last simulated second every tame robot is back where it
      started. */
  lemma SimulationReturns(robots: seq<Robot>)
    requires AllTame(robots)
    ensures MoveAllTimes(robots, LastStep) == robots
  {
    MoveAllTimesEach(robots, LastStep);
    forall i | 0 <= i < |robots| ensures MoveAllTimes(robots, LastStep)[i] == robots[i] {
      MovePeriod(robots[i], LastStep);
    }
  }
}
