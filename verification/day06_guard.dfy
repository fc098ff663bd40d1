/** Day 6: a guard walks a grid of `.` floor and `#` obstacles, starting on
    the `^` cell facing up. Each step moves one cell ahead, turning clockwise
    in place while an obstacle blocks the way. Challenge 1 counts the cells
    visited before the guard walks off the grid; challenge 2 counts the floor
    cells where one extra obstacle makes the guard walk in a loop. */
module GuardWalk {
  import opened Options
  import opened Seqs
  import opened Text
  import opened Grids

  datatype Direction = Up | Right | Down | Left

  /** The state of the walk: where the guard stands and where it faces. */
  datatype Guard = Guard(pos: Pos, dir: Direction)

  const Obstacle := '#'
  const Floor := '.'
  const Start := '^'

  /** The grids the solvers read: `data.split("\n")` of a non-ragged input. */
  predicate Grid6(grid: Grid<char>)
  {
    IsRect(grid)
  }

  /** The guard stands on a cell of the grid. */
  predicate OnGrid(grid: Grid<char>, g: Guard)
  {
    InGrid(grid, g.pos.x, g.pos.y)
  }

  // ---------------------------------------------------------------------
  // Keys

  function DirectionName(d: Direction): string
  {
    match d
    case Up => "up"
    case Right => "right"
    case Down => "down"
    case Left => "left"
  }

  /** `${x},${y}`, the key of a position in the sets of the source. */
  function PositionKey(p: Pos): string
    requires p.x >= 0 && p.y >= 0
  {
    Join([NatToString(p.x), NatToString(p.y)], ",")
  }

  /** `${x},${y},${direction}`, the key of a guard state. */
  function GuardKey(g: Guard): string
    requires g.pos.x >= 0 && g.pos.y >= 0
  {
    Join([NatToString(g.pos.x), NatToString(g.pos.y), DirectionName(g.dir)], ",")
  }

  /** Reads a guard key back. */
  function ParseGuardKey(key: string): Option<Guard>
  {
    var parts := Split(key, ",");
    if |parts| != 3 || !IsDigits(parts[0]) || !IsDigits(parts[1]) then None
    else
      var x, y := ParseNat(parts[0]), ParseNat(parts[1]);
      match parts[2]
      case "up" => Some(Guard(Pos(x, y), Up))
      case "right" => Some(Guard(Pos(x, y), Right))
      case "down" => Some(Guard(Pos(x, y), Down))
      case "left" => Some(Guard(Pos(x, y), Left))
      case _ => None
  }

  lemma DigitsHaveNoComma(s: string)
    requires IsDigits(s)
    ensures ',' !in s
  {
    forall i | 0 <= i < |s| ensures s[i] != ',' {
      assert IsDigit(s[i]);
    }
  }

  /** A guard key names its state: reading it back gives the guard. */
  lemma GuardKeyRoundTrip(g: Guard)
    requires g.pos.x >= 0 && g.pos.y >= 0
    ensures ParseGuardKey(GuardKey(g)) == Some(g)
  {
    var parts := [NatToString(g.pos.x), NatToString(g.pos.y), DirectionName(g.dir)];
    DigitsHaveNoComma(parts[0]);
    DigitsHaveNoComma(parts[1]);
    SplitJoin(parts, ",");
    ParseNatToString(g.pos.x);
    ParseNatToString(g.pos.y);
  }

  /** Two states share a key only when they are the same state, so a set of
      keys counts states. */
  lemma GuardKeyInjective(a: Guard, b: Guard)
    requires a.pos.x >= 0 && a.pos.y >= 0 && b.pos.x >= 0 && b.pos.y >= 0
    ensures GuardKey(a) == GuardKey(b) <==> a == b
  {
    GuardKeyRoundTrip(a);
    GuardKeyRoundTrip(b);
  }

  /** The same for positions. */
  lemma PositionKeyInjective(a: Pos, b: Pos)
    requires a.x >= 0 && a.y >= 0 && b.x >= 0 && b.y >= 0
    ensures PositionKey(a) == PositionKey(b) <==> a == b
  {
    if PositionKey(a) == PositionKey(b) {
      GuardKeyInjective(Guard(a, Up), Guard(b, Up));
      assert GuardKey(Guard(a, Up)) == PositionKey(a) + "," + "up" by {
        JoinCons(NatToString(a.x), [NatToString(a.y), "up"], ",");
        JoinCons(NatToString(a.x), [NatToString(a.y)], ",");
      }
      assert GuardKey(Guard(b, Up)) == PositionKey(b) + "," + "up" by {
        JoinCons(NatToString(b.x), [NatToString(b.y), "up"], ",");
        JoinCons(NatToString(b.x), [NatToString(b.y)], ",");
      }
    }
  }

  // ---------------------------------------------------------------------
  // getInitialGuardPosition

  /** `grid.findIndex((row) => row.includes("^"))`. */
  function RowWithStart(grid: Grid<char>): (y: int)
    ensures -1 <= y < |grid|
    ensures y == -1 <==> forall j :: 0 <= j < |grid| ==> Start !in grid[j]
    ensures y >= 0 ==> Start in grid[y] && forall j :: 0 <= j < y ==> Start !in grid[j]
  {
    if |grid| == 0 then -1
    else if Start in grid[0] then 0
    else
      var y := RowWithStart(grid[1..]);
      if y == -1 then -1 else y + 1
  }

  /** `row.findIndex((tile) => tile === "^")`. */
  function ColumnOfStart(row: seq<char>): (x: int)
    ensures -1 <= x < |row|
    ensures x == -1 <==> Start !in row
    ensures x >= 0 ==> row[x] == Start && Start !in row[..x]
  {
    if |row| == 0 then -1
    else if row[0] == Start then 0
    else
      var x := ColumnOfStart(row[1..]);
      assert x >= 0 ==> row[1..][..x] == row[1..x + 1];
      if x == -1 then -1 else x + 1
  }

  /** getInitialGuardPosition: the first `^` in row-major order, facing up.
      Without a `^` the source reads `grid[-1]`, which throws; that is `None`. */
  function InitialGuard(grid: Grid<char>): (g: Option<Guard>)
    ensures g.None? <==> forall j :: 0 <= j < |grid| ==> Start !in grid[j]
    ensures g.Some? ==> OnGrid(grid, g.value) && g.value.dir == Up
  {
    var y := RowWithStart(grid);
    if y == -1 then None
    else Some(Guard(Pos(ColumnOfStart(grid[y]), y), Up))
  }

  /** The start is the first `^` reading row by row, left to right. */
  lemma InitialGuardIsFirstStart(grid: Grid<char>)
    requires InitialGuard(grid).Some?
    ensures var p := InitialGuard(grid).value.pos;
            && grid[p.y][p.x] == Start
            && (forall j :: 0 <= j < p.y ==> Start !in grid[j])
            && (forall i :: 0 <= i < p.x ==> grid[p.y][i] != Start)
  {
    var p := InitialGuard(grid).value.pos;
    forall i | 0 <= i < p.x ensures grid[p.y][i] != Start {
      assert grid[p.y][..p.x][i] == grid[p.y][i];
    }
  }

  // ---------------------------------------------------------------------
  // getNextGuardPosition

  /** Clockwise: up, right, down, left, up. */
  function Turn(d: Direction): Direction
  {
    match d
    case Up => Right
    case Right => Down
    case Down => Left
    case Left => Up
  }

  function TurnTimes(d: Direction, k: nat): Direction
  {
    if k == 0 then d else Turn(TurnTimes(d, k - 1))
  }

  /** Four turns face the guard the way it faced before. */
  lemma FourTurnsAreNone(d: Direction)
    ensures TurnTimes(d, 4) == d
  {
  }

  /** The cell one step from `p` facing `d`. */
  function Ahead(p: Pos, d: Direction): Pos
  {
    match d
    case Up => Pos(p.x, p.y - 1)
    case Right => Pos(p.x + 1, p.y)
    case Down => Pos(p.x, p.y + 1)
    case Left => Pos(p.x - 1, p.y)
  }

  /** The checks `y === 0`, `x === grid[y].length - 1`, `y === grid.length - 1`
      and `x === 0`: the guard faces the edge of the grid. */
  predicate FacesEdge(grid: Grid<char>, p: Pos, d: Direction)
    requires 0 <= p.y < |grid|
  {
    match d
    case Up => p.y == 0
    case Right => p.x == |grid[p.y]| - 1
    case Down => p.y == |grid| - 1
    case Left => p.x == 0
  }

  /** Inside the grid, the cell ahead exists exactly when the guard does not
      face the edge. */
  lemma AheadInGrid(grid: Grid<char>, p: Pos, d: Direction)
    requires Grid6(grid) && InGrid(grid, p.x, p.y)
    ensures !FacesEdge(grid, p, d) <==> InGrid(grid, Ahead(p, d).x, Ahead(p, d).y)
  {
  }

  /** An obstacle stands right ahead. */
  predicate Blocked(grid: Grid<char>, p: Pos, d: Direction)
    requires Grid6(grid) && InGrid(grid, p.x, p.y)
  {
    !FacesEdge(grid, p, d) && At(grid, Ahead(p, d).x, Ahead(p, d).y) == Some(Obstacle)
  }

  /** What one call of getNextGuardPosition gives: the next state, `null`
      (the guard faces the edge), or nothing at all when obstacles stand on
      all four sides: the source then turns forever until the stack runs out. */
  datatype Step = Moved(next: Guard) | Exited | Boxed

  /** The recursion of getNextGuardPosition with `turnsLeft` turns still
      allowed before the call would repeat itself. */
  function NextGuardTurning(grid: Grid<char>, g: Guard, turnsLeft: nat): (r: Step)
    requires Grid6(grid) && OnGrid(grid, g)
    ensures r.Moved? ==> OnGrid(grid, r.next) && r.next.pos == Ahead(g.pos, r.next.dir)
    ensures r.Moved? ==> grid[r.next.pos.y][r.next.pos.x] != Obstacle
    decreases turnsLeft
  {
    if FacesEdge(grid, g.pos, g.dir) then Exited
    else
      var p := Ahead(g.pos, g.dir);
      if grid[p.y][p.x] == Obstacle then
        if turnsLeft == 0 then Boxed
        else NextGuardTurning(grid, Guard(g.pos, Turn(g.dir)), turnsLeft - 1)
      else Moved(Guard(p, g.dir))
  }

  /** getNextGuardPosition. After three turns the guard faces each direction
      once; a fourth would repeat the first call. */
  function NextGuard(grid: Grid<char>, g: Guard): (r: Step)
    requires Grid6(grid) && OnGrid(grid, g)
    ensures r.Moved? ==> OnGrid(grid, r.next) && r.next.pos == Ahead(g.pos, r.next.dir)
    ensures r.Moved? ==> grid[r.next.pos.y][r.next.pos.x] != Obstacle
  {
    NextGuardTurning(grid, g, 3)
  }

  /** The guard's way is blocked facing `d` and after each of the next `n`
      clockwise turns. */
  predicate BlockedTurning(grid: Grid<char>, p: Pos, d: Direction, n: nat)
    requires Grid6(grid) && InGrid(grid, p.x, p.y)
    decreases n
  {
    Blocked(grid, p, d) && (n == 0 || BlockedTurning(grid, p, Turn(d), n - 1))
  }

  /** The guard settles on the `k`-th direction clockwise: every earlier one
      is blocked, this one is not, and it either faces the edge (the result
      is `null`) or steps ahead. */
  predicate SettlesOn(grid: Grid<char>, g: Guard, k: nat, r: Step)
    requires Grid6(grid) && OnGrid(grid, g)
  {
    var d := TurnTimes(g.dir, k);
    && (k == 0 || BlockedTurning(grid, g.pos, g.dir, k - 1))
    && !Blocked(grid, g.pos, d)
    && r == (if FacesEdge(grid, g.pos, d) then Exited else Moved(Guard(Ahead(g.pos, d), d)))
  }

  lemma {:induction false} NextGuardTurningSettles(grid: Grid<char>, g: Guard, turnsLeft: nat)
    requires Grid6(grid) && OnGrid(grid, g)
    ensures var r := NextGuardTurning(grid, g, turnsLeft);
            && (r.Boxed? <==> BlockedTurning(grid, g.pos, g.dir, turnsLeft))
            && (!r.Boxed? ==> exists k :: 0 <= k <= turnsLeft && SettlesOn(grid, g, k, r))
    decreases turnsLeft
  {
    var r := NextGuardTurning(grid, g, turnsLeft);
    AheadInGrid(grid, g.pos, g.dir);
    if Blocked(grid, g.pos, g.dir) && turnsLeft > 0 {
      var h := Guard(g.pos, Turn(g.dir));
      assert r == NextGuardTurning(grid, h, turnsLeft - 1);
      NextGuardTurningSettles(grid, h, turnsLeft - 1);
      if !r.Boxed? {
        var k :| 0 <= k <= turnsLeft - 1 && SettlesOn(grid, h, k, r);
        TurnTimesShift(g.dir, k);
        assert SettlesOn(grid, g, k + 1, r);
      }
    } else if !Blocked(grid, g.pos, g.dir) {
      var p := Ahead(g.pos, g.dir);
      assert r == if FacesEdge(grid, g.pos, g.dir) then Exited else Moved(Guard(p, g.dir));
      assert SettlesOn(grid, g, 0, r);
    } else {
      assert r.Boxed?;
    }
  }

  lemma {:induction false} TurnTimesShift(d: Direction, k: nat)
    ensures TurnTimes(Turn(d), k) == TurnTimes(d, k + 1)
  {
    if k > 0 {
      TurnTimesShift(d, k - 1);
    }
  }

  /** The obstacles on the four sides of a cell, all inside the grid. */
  predicate WalledIn(grid: Grid<char>, p: Pos)
    requires Grid6(grid) && InGrid(grid, p.x, p.y)
  {
    forall d: Direction :: Blocked(grid, p, d)
  }

  /** getNextGuardPosition turns clockwise past every obstacle and settles on
      the first open direction, where it either steps ahead or finds the
      edge; it never returns when the guard is walled in on all four sides. */
  lemma NextGuardMeaning(grid: Grid<char>, g: Guard)
    requires Grid6(grid) && OnGrid(grid, g)
    ensures NextGuard(grid, g).Boxed? <==> WalledIn(grid, g.pos)
    ensures !NextGuard(grid, g).Boxed? ==> exists k :: 0 <= k < 4 && SettlesOn(grid, g, k, NextGuard(grid, g))
  {
    NextGuardTurningSettles(grid, g, 3);
    var p, d := g.pos, g.dir;
    assert BlockedTurning(grid, p, d, 3) <==>
           Blocked(grid, p, d) && Blocked(grid, p, Turn(d)) && Blocked(grid, p, Turn(Turn(d)))
           && Blocked(grid, p, Turn(Turn(Turn(d))));
    assert WalledIn(grid, p) <==>
           Blocked(grid, p, Up) && Blocked(grid, p, Right) && Blocked(grid, p, Down) && Blocked(grid, p, Left);
  }

  /** A blocked guard would, after the fourth turn, make the very call it
      started with: the source recursion never ends. */
  lemma BoxedRepeatsCall(grid: Grid<char>, g: Guard)
    requires Grid6(grid) && OnGrid(grid, g) && NextGuard(grid, g).Boxed?
    ensures Guard(g.pos, TurnTimes(g.dir, 4)) == g
    ensures BlockedTurning(grid, g.pos, g.dir, 3)
  {
    NextGuardTurningSettles(grid, g, 3);
  }

  lemma AheadIsAdjacent(p: Pos, d: Direction)
    ensures Adjacent(p, Ahead(p, d))
  {
  }

  // ---------------------------------------------------------------------
  // The walk, over any step function

  /** A step function: getNextGuardPosition on a fixed grid. */
  type Stepper = Guard -> Step

  /** getNextGuardPosition on `grid`, for states on the grid (the walks never
      reach others). */
  function Walker(grid: Grid<char>): Stepper
    requires Grid6(grid)
  {
    h => if OnGrid(grid, h) then NextGuard(grid, h) else Exited
  }

  /** A step function that keeps the guard on the grid, moving it to an
      orthogonal neighbour that is no obstacle. */
  ghost predicate StaysOnGrid(step: Stepper, grid: Grid<char>)
  {
    forall h :: OnGrid(grid, h) && step(h).Moved? ==>
      && OnGrid(grid, step(h).next)
      && grid[step(h).next.pos.y][step(h).next.pos.x] != Obstacle
      && Adjacent(h.pos, step(h).next.pos)
  }

  lemma WalkerStaysOnGrid(grid: Grid<char>)
    requires Grid6(grid)
    ensures StaysOnGrid(Walker(grid), grid)
  {
    forall h | OnGrid(grid, h) && Walker(grid)(h).Moved?
      ensures Adjacent(h.pos, Walker(grid)(h).next.pos)
    {
      AheadIsAdjacent(h.pos, NextGuard(grid, h).next.dir);
    }
  }

  /** One step of the walk on an optional state: a stopped walk stays
      stopped. */
  function Advance(step: Stepper, o: Option<Guard>): Option<Guard>
  {
    match o
    case None => None
    case Some(h) => if step(h).Moved? then Some(step(h).next) else None
  }

  /** The state after `n` steps from `s`, or `None` when the guard has left
      the grid or been walled in before. */
  function Reach(step: Stepper, s: Guard, n: nat): Option<Guard>
  {
    if n == 0 then Some(s) else Advance(step, Reach(step, s, n - 1))
  }

  /** Every state reached stays on the grid. */
  lemma {:induction false} ReachOnGrid(step: Stepper, grid: Grid<char>, s: Guard, n: nat)
    requires StaysOnGrid(step, grid) && OnGrid(grid, s)
    ensures Reach(step, s, n).Some? ==> OnGrid(grid, Reach(step, s, n).value)
  {
    if n > 0 {
      ReachOnGrid(step, grid, s, n - 1);
    }
  }

  /** After `n` steps the guard faces the edge: its next step leaves. */
  predicate ExitsAt(step: Stepper, s: Guard, n: nat)
  {
    var r := Reach(step, s, n);
    r.Some? && step(r.value).Exited?
  }

  /** After `n` steps the guard stands walled in. */
  predicate TrappedAt(step: Stepper, s: Guard, n: nat)
  {
    var r := Reach(step, s, n);
    r.Some? && step(r.value).Boxed?
  }

  /** A state seen twice. */
  predicate Repeats(step: Stepper, s: Guard, i: nat, j: nat)
  {
    i < j && Reach(step, s, i).Some? && Reach(step, s, i) == Reach(step, s, j)
  }

  /** Walking `a` steps and then `b` more is walking `a + b` steps. */
  lemma {:induction false} ReachAdd(step: Stepper, s: Guard, a: nat, b: nat)
    requires Reach(step, s, a).Some?
    ensures Reach(step, s, a + b) == Reach(step, Reach(step, s, a).value, b)
  {
    if b > 0 {
      ReachAdd(step, s, a, b - 1);
    }
  }

  /** A stopped walk stays stopped. */
  lemma {:induction false} ReachStopped(step: Stepper, s: Guard, n: nat, m: nat)
    requires n <= m && Reach(step, s, n).None?
    ensures Reach(step, s, m).None?
    decreases m
  {
    if n < m {
      ReachStopped(step, s, n, m - 1);
    }
  }

  /** A state reached after `n` steps was preceded by all the earlier ones. */
  lemma {:induction false} ReachEarlier(step: Stepper, s: Guard, n: nat, m: nat)
    requires m <= n && Reach(step, s, n).Some?
    ensures Reach(step, s, m).Some?
    decreases n
  {
    if m < n {
      ReachEarlier(step, s, n - 1, m);
    }
  }

  /** The walk stops at most once, and only in one way. */
  lemma EndsOnce(step: Stepper, s: Guard, n: nat, m: nat)
    requires ExitsAt(step, s, n) || TrappedAt(step, s, n)
    requires ExitsAt(step, s, m) || TrappedAt(step, s, m)
    ensures n == m && (ExitsAt(step, s, n) <==> ExitsAt(step, s, m))
  {
    if n < m {
      assert Reach(step, s, n + 1).None?;
      ReachStopped(step, s, n + 1, m);
    } else if m < n {
      assert Reach(step, s, m + 1).None?;
      ReachStopped(step, s, m + 1, n);
    }
  }

  /** Once a state repeats the walk goes round for ever: it never leaves the
      grid and is never walled in. */
  lemma {:induction false} RepeatNeverEnds(step: Stepper, s: Guard, i: nat, j: nat, m: nat)
    requires Repeats(step, s, i, j)
    ensures Reach(step, s, m).Some?
    ensures !ExitsAt(step, s, m) && !TrappedAt(step, s, m)
    decreases m
  {
    RepeatKeepsGoing(step, s, i, j, m);
    RepeatKeepsGoing(step, s, i, j, m + 1);
  }

  lemma {:induction false} RepeatKeepsGoing(step: Stepper, s: Guard, i: nat, j: nat, m: nat)
    requires Repeats(step, s, i, j)
    ensures Reach(step, s, m).Some?
    decreases m
  {
    if m < j {
      ReachEarlier(step, s, j, m);
    } else {
      RepeatKeepsGoing(step, s, i, j, m - (j - i));
      ReachAdd(step, s, j, m - j);
      ReachAdd(step, s, i, m - j);
      assert i + (m - j) == m - (j - i);
    }
  }

  /** What moveGuardTilOffGrid gives: the positions walked, the guard walled
      in (the source's recursion never returns), or `fuel` steps without
      leaving the grid (the source loops for ever on a looping grid). */
  datatype Walk = Path(positions: seq<Pos>) | Stuck | OutOfFuel

  /** The loop of moveGuardTilOffGrid: the start and every position stepped
      onto, up to the step that leaves the grid. */
  function WalkFrom(step: Stepper, g: Guard, fuel: nat): (w: Walk)
    ensures w.Path? ==> |w.positions| >= 1 && w.positions[0] == g.pos
    decreases fuel
  {
    match step(g)
    case Exited => Path([g.pos])
    case Boxed => Stuck
    case Moved(n) =>
      if fuel == 0 then OutOfFuel
      else
        match WalkFrom(step, n, fuel - 1)
        case Path(ps) => Path([g.pos] + ps)
        case Stuck => Stuck
        case OutOfFuel => OutOfFuel
  }

  /** moveGuardTilOffGrid. */
  function MoveGuardTilOffGrid(grid: Grid<char>, g: Guard, fuel: nat): Walk
    requires Grid6(grid)
  {
    WalkFrom(Walker(grid), g, fuel)
  }

  /** The walk lists the positions of the states reached, one per step. */
  lemma {:induction false} WalkFollowsReach(step: Stepper, g: Guard, fuel: nat)
    requires WalkFrom(step, g, fuel).Path?
    ensures var ps := WalkFrom(step, g, fuel).positions;
            forall i :: 0 <= i < |ps| ==> Reach(step, g, i).Some? && Reach(step, g, i).value.pos == ps[i]
    decreases fuel
  {
    assert Reach(step, g, 0) == Some(g);
    if step(g).Moved? {
      var n := step(g).next;
      assert Reach(step, g, 1) == Some(n);
      WalkFollowsReach(step, n, fuel - 1);
      var ps, qs := WalkFrom(step, g, fuel).positions, WalkFrom(step, n, fuel - 1).positions;
      assert ps == [g.pos] + qs;
      forall i | 0 < i < |ps| ensures Reach(step, g, i).Some? && Reach(step, g, i).value.pos == ps[i] {
        ReachAdd(step, g, 1, i - 1);
        assert ps[i] == qs[i - 1];
      }
    }
  }

  /** The walk ends where the next step leaves the grid. */
  lemma {:induction false} WalkEndsAtExit(step: Stepper, g: Guard, fuel: nat)
    requires WalkFrom(step, g, fuel).Path?
    ensures ExitsAt(step, g, |WalkFrom(step, g, fuel).positions| - 1)
    decreases fuel
  {
    assert Reach(step, g, 0) == Some(g);
    if step(g).Moved? {
      var n := step(g).next;
      assert Reach(step, g, 1) == Some(n);
      WalkEndsAtExit(step, n, fuel - 1);
      var ps, qs := WalkFrom(step, g, fuel).positions, WalkFrom(step, n, fuel - 1).positions;
      assert |ps| == 1 + |qs|;
      ReachAdd(step, g, 1, |qs| - 1);
    }
  }

  /** A walk that gets stuck reaches a walled-in state. */
  lemma {:induction false} WalkStuckIsTrapped(step: Stepper, g: Guard, fuel: nat)
    requires WalkFrom(step, g, fuel).Stuck?
    ensures exists n: nat :: TrappedAt(step, g, n)
    decreases fuel
  {
    assert Reach(step, g, 0) == Some(g);
    if step(g).Moved? {
      var n := step(g).next;
      assert Reach(step, g, 1) == Some(n);
      WalkStuckIsTrapped(step, n, fuel - 1);
      var m: nat :| TrappedAt(step, n, m);
      ReachAdd(step, g, 1, m);
      assert TrappedAt(step, g, 1 + m);
    } else {
      assert TrappedAt(step, g, 0);
    }
  }

  /** Consecutive positions of the walk are orthogonal neighbours, all on the
      grid and none an obstacle after the start. */
  lemma {:induction false} WalkSteps(grid: Grid<char>, g: Guard, fuel: nat)
    requires Grid6(grid) && OnGrid(grid, g)
    requires MoveGuardTilOffGrid(grid, g, fuel).Path?
    ensures var ps := MoveGuardTilOffGrid(grid, g, fuel).positions;
            && (forall i :: 0 <= i < |ps| ==> InGrid(grid, ps[i].x, ps[i].y))
            && (forall i :: 0 < i < |ps| ==> grid[ps[i].y][ps[i].x] != Obstacle)
            && (forall i :: 0 <= i < |ps| - 1 ==> Adjacent(ps[i], ps[i + 1]))
  {
    WalkerStaysOnGrid(grid);
    PathSteps(Walker(grid), grid, g, fuel);
  }

  lemma {:induction false} PathSteps(step: Stepper, grid: Grid<char>, g: Guard, fuel: nat)
    requires StaysOnGrid(step, grid) && OnGrid(grid, g)
    requires WalkFrom(step, g, fuel).Path?
    ensures var ps := WalkFrom(step, g, fuel).positions;
            && (forall i :: 0 <= i < |ps| ==> InGrid(grid, ps[i].x, ps[i].y))
            && (forall i :: 0 < i < |ps| ==> grid[ps[i].y][ps[i].x] != Obstacle)
            && (forall i :: 0 <= i < |ps| - 1 ==> Adjacent(ps[i], ps[i + 1]))
    decreases fuel
  {
    if step(g).Moved? {
      var n := step(g).next;
      PathSteps(step, grid, n, fuel - 1);
      var ps := WalkFrom(step, g, fuel).positions;
      var qs := WalkFrom(step, n, fuel - 1).positions;
      assert ps == [g.pos] + qs;
      forall i | 0 <= i < |ps| - 1 ensures Adjacent(ps[i], ps[i + 1]) {
        if i > 0 {
          assert ps[i] == qs[i - 1] && ps[i + 1] == qs[i];
        }
      }
    }
  }

  /** Challenge 1 counts the distinct positions of the walk (through their
      keys, which name positions one to one). */
  function DistinctPositions(ps: seq<Pos>): set<Pos>
  {
    set i | 0 <= i < |ps| :: ps[i]
  }

  /** The count is at most the number of cells. */
  lemma VisitedAtMostCells(grid: Grid<char>, g: Guard, fuel: nat)
    requires Grid6(grid) && OnGrid(grid, g)
    requires MoveGuardTilOffGrid(grid, g, fuel).Path?
    ensures |DistinctPositions(MoveGuardTilOffGrid(grid, g, fuel).positions)| <= Width(grid) * |grid|
  {
    var ps := MoveGuardTilOffGrid(grid, g, fuel).positions;
    WalkSteps(grid, g, fuel);
    assert DistinctPositions(ps) <= Cells(grid);
    CellsCount(grid);
    SubsetCard(DistinctPositions(ps), Cells(grid));
  }

  /** A walk that leaves the grid after `n` steps is found with `n` fuel. */
  lemma {:induction false} WalkFinishes(step: Stepper, g: Guard, n: nat)
    requires ExitsAt(step, g, n)
    ensures WalkFrom(step, g, n).Path?
    ensures |WalkFrom(step, g, n).positions| == n + 1
    decreases n
  {
    if n > 0 {
      ReachEarlier(step, g, n, 1);
      assert Reach(step, g, 1) == Advance(step, Some(g));
      var h := step(g).next;
      ReachAdd(step, g, 1, n - 1);
      WalkFinishes(step, h, n - 1);
    }
  }

  // ---------------------------------------------------------------------
  // moveGuardTilOffGridOrInLoop (challenge 2)

  /** The states facing `d` on the given cells. */
  function Facing(cells: set<Pos>, d: Direction): set<Guard>
  {
    set p | p in cells :: Guard(p, d)
  }

  lemma {:induction false} FacingCount(cells: set<Pos>, d: Direction)
    ensures |Facing(cells, d)| == |cells|
    decreases |cells|
  {
    if cells != {} {
      var p :| p in cells;
      FacingCount(cells - {p}, d);
      assert Facing(cells, d) == Facing(cells - {p}, d) + {Guard(p, d)};
    }
  }

  /** Every state of a guard on the grid. */
  function AllStates(grid: Grid<char>): set<Guard>
  {
    var cells := Cells(grid);
    Facing(cells, Up) + Facing(cells, Right) + Facing(cells, Down) + Facing(cells, Left)
  }

  lemma InAllStates(grid: Grid<char>, h: Guard)
    ensures h in AllStates(grid) <==> OnGrid(grid, h)
  {
    var cells := Cells(grid);
    if OnGrid(grid, h) {
      assert h.pos in cells;
      match h.dir
      case Up => assert h in Facing(cells, Up);
      case Right => assert h in Facing(cells, Right);
      case Down => assert h in Facing(cells, Down);
      case Left => assert h in Facing(cells, Left);
    }
  }

  lemma FacingDirection(cells: set<Pos>, d: Direction, h: Guard)
    requires h in Facing(cells, d)
    ensures h.dir == d
  {
  }

  lemma {:induction false} FourFacingCount(cells: set<Pos>)
    ensures |Facing(cells, Up) + Facing(cells, Right) + Facing(cells, Down) + Facing(cells, Left)| == 4 * |cells|
  {
    FacingCount(cells, Up);
    FacingCount(cells, Right);
    FacingCount(cells, Down);
    FacingCount(cells, Left);
    var u, r, d, l := Facing(cells, Up), Facing(cells, Right), Facing(cells, Down), Facing(cells, Left);
    forall h | h in u + r + d ensures h !in l {
      if h in l {
        FacingDirection(cells, Left, h);
      }
    }
    forall h | h in u + r ensures h !in d {
      if h in d {
        FacingDirection(cells, Down, h);
      }
    }
    forall h | h in u ensures h !in r {
      if h in r {
        FacingDirection(cells, Right, h);
      }
    }
    DisjointUnionSize(u, r);
    DisjointUnionSize(u + r, d);
    DisjointUnionSize(u + r + d, l);
  }

  /** There are four states per cell. */
  lemma AllStatesCount(grid: Grid<char>)
    requires Grid6(grid)
    ensures |AllStates(grid)| == 4 * Width(grid) * |grid|
  {
    var w, h := Width(grid), |grid|;
    FourFacingCount(Cells(grid));
    CellsCount(grid);
    MulAssoc(4, w, h);
  }

  lemma MulAssoc(a: int, b: int, c: int)
    ensures a * (b * c) == a * b * c
  {
  }

  /** A step function that never leaves `states` while it moves. */
  ghost predicate Closed(step: Stepper, states: set<Guard>)
  {
    forall h :: h in states && step(h).Moved? ==> step(h).next in states
  }

  lemma WalkerClosed(grid: Grid<char>)
    requires Grid6(grid)
    ensures Closed(Walker(grid), AllStates(grid))
  {
    WalkerStaysOnGrid(grid);
    forall h | h in AllStates(grid) && Walker(grid)(h).Moved?
      ensures Walker(grid)(h).next in AllStates(grid)
    {
      InAllStates(grid, h);
      InAllStates(grid, Walker(grid)(h).next);
    }
  }

  /** The answer of moveGuardTilOffGridOrInLoop: `true`, `false`, or the
      guard walled in (the source then recurses until the stack runs out). */
  datatype Verdict = Loops | LeavesGrid | Trapped

  /** The loop of moveGuardTilOffGridOrInLoop with the set of states seen so
      far. It ends because every round adds a new state of a finite set. */
  function LoopCheck(step: Stepper, states: set<Guard>, g: Guard, visited: set<Guard>): Verdict
    requires Closed(step, states) && g in states && visited <= states
    decreases |states - visited|
  {
    match step(g)
    case Exited => LeavesGrid
    case Boxed => Trapped
    case Moved(n) =>
      if n in visited then Loops
      else
        assert states - (visited + {n}) < states - visited;
        LoopCheck(step, states, n, visited + {n})
  }

  /** moveGuardTilOffGridOrInLoop. */
  function MoveGuardTilOffGridOrInLoop(grid: Grid<char>, g: Guard): Verdict
    requires Grid6(grid) && OnGrid(grid, g)
  {
    WalkerClosed(grid);
    InAllStates(grid, g);
    LoopCheck(Walker(grid), AllStates(grid), g, {g})
  }

  /** The states of the first `k + 1` steps. */
  function Seen(step: Stepper, s: Guard, k: nat): set<Guard>
  {
    set i | 0 <= i <= k && Reach(step, s, i).Some? :: Reach(step, s, i).value
  }

  lemma SeenNext(step: Stepper, s: Guard, k: nat)
    requires Reach(step, s, k + 1).Some?
    ensures Seen(step, s, k + 1) == Seen(step, s, k) + {Reach(step, s, k + 1).value}
  {
    var a, b := Seen(step, s, k + 1), Seen(step, s, k) + {Reach(step, s, k + 1).value};
    forall h | h in a ensures h in b {
      var i :| 0 <= i <= k + 1 && Reach(step, s, i).Some? && Reach(step, s, i).value == h;
      if i <= k {
        assert h in Seen(step, s, k);
      }
    }
  }

  /** The precondition the loop keeps: `g` is the state after `k` steps and
      `visited` holds the `k + 1` distinct states of those steps. */
  ghost predicate LoopInvariant(step: Stepper, states: set<Guard>, s: Guard, k: nat, visited: set<Guard>)
  {
    && Closed(step, states) && visited <= states
    && Reach(step, s, k).Some? && Reach(step, s, k).value in states
    && visited == Seen(step, s, k) && |visited| == k + 1
  }

  /** One round of the loop keeps the invariant. */
  lemma LoopInvariantStep(step: Stepper, states: set<Guard>, s: Guard, k: nat, visited: set<Guard>)
    requires LoopInvariant(step, states, s, k, visited)
    requires var g := Reach(step, s, k).value; step(g).Moved? && step(g).next !in visited
    ensures var n := step(Reach(step, s, k).value).next;
            && Reach(step, s, k + 1) == Some(n)
            && LoopInvariant(step, states, s, k + 1, visited + {n})
            && LoopCheck(step, states, Reach(step, s, k).value, visited) == LoopCheck(step, states, n, visited + {n})
            && |states - (visited + {n})| < |states - visited|
  {
    var n := step(Reach(step, s, k).value).next;
    assert Reach(step, s, k + 1) == Some(n);
    SeenNext(step, s, k);
    assert states - (visited + {n}) < states - visited;
  }

  /** Stepping onto a state already seen is a repeat, within as many steps
      as there are states. */
  lemma RevisitRepeats(step: Stepper, states: set<Guard>, s: Guard, k: nat, visited: set<Guard>)
    requires LoopInvariant(step, states, s, k, visited)
    requires Reach(step, s, k + 1).Some? && Reach(step, s, k + 1).value in visited
    ensures exists i: nat, j: nat :: j <= |states| && Repeats(step, s, i, j)
  {
    var n := Reach(step, s, k + 1).value;
    SubsetCard(visited, states);
    var i :| 0 <= i <= k && Reach(step, s, i).Some? && Reach(step, s, i).value == n;
    assert Repeats(step, s, i, k + 1);
  }

  /** `true` comes from a state seen twice, within as many steps as there
      are states. */
  lemma {:induction false} LoopCheckLoops(step: Stepper, states: set<Guard>, s: Guard, k: nat, visited: set<Guard>)
    requires LoopInvariant(step, states, s, k, visited)
    requires LoopCheck(step, states, Reach(step, s, k).value, visited) == Loops
    ensures exists i: nat, j: nat :: j <= |states| && Repeats(step, s, i, j)
    decreases |states - visited|
  {
    var g := Reach(step, s, k).value;
    var n := step(g).next;
    if n in visited {
      assert Reach(step, s, k + 1) == Some(n);
      RevisitRepeats(step, states, s, k, visited);
    } else {
      LoopInvariantStep(step, states, s, k, visited);
      LoopCheckLoops(step, states, s, k + 1, visited + {n});
    }
  }

  /** `false` comes from the step that leaves the grid, taken before as many
      steps as there are states. */
  lemma {:induction false} LoopCheckLeaves(step: Stepper, states: set<Guard>, s: Guard, k: nat, visited: set<Guard>)
    requires LoopInvariant(step, states, s, k, visited)
    requires LoopCheck(step, states, Reach(step, s, k).value, visited) == LeavesGrid
    ensures exists n: nat :: n < |states| && ExitsAt(step, s, n)
    decreases |states - visited|
  {
    var g := Reach(step, s, k).value;
    SubsetCard(visited, states);
    if step(g).Exited? {
      assert ExitsAt(step, s, k);
    } else {
      var n := step(g).next;
      LoopInvariantStep(step, states, s, k, visited);
      LoopCheckLeaves(step, states, s, k + 1, visited + {n});
    }
  }

  /** The guard walled in is found the same way. */
  lemma {:induction false} LoopCheckTrapped(step: Stepper, states: set<Guard>, s: Guard, k: nat, visited: set<Guard>)
    requires LoopInvariant(step, states, s, k, visited)
    requires LoopCheck(step, states, Reach(step, s, k).value, visited) == Trapped
    ensures exists n: nat :: n < |states| && TrappedAt(step, s, n)
    decreases |states - visited|
  {
    var g := Reach(step, s, k).value;
    SubsetCard(visited, states);
    if step(g).Boxed? {
      assert TrappedAt(step, s, k);
    } else {
      var n := step(g).next;
      LoopInvariantStep(step, states, s, k, visited);
      LoopCheckTrapped(step, states, s, k + 1, visited + {n});
    }
  }

  /** moveGuardTilOffGridOrInLoop answers `true` exactly when the walk
      repeats a state, `false` exactly when it leaves the grid, and is walled
      in otherwise. */
  lemma LoopVerdictMeaning(grid: Grid<char>, s: Guard)
    requires Grid6(grid) && OnGrid(grid, s)
    ensures var o, step := MoveGuardTilOffGridOrInLoop(grid, s), Walker(grid);
            && (o == Loops <==> exists i: nat, j: nat :: Repeats(step, s, i, j))
            && (o == LeavesGrid <==> exists n: nat :: ExitsAt(step, s, n))
            && (o == Trapped <==> exists n: nat :: TrappedAt(step, s, n))
  {
    var o, step := MoveGuardTilOffGridOrInLoop(grid, s), Walker(grid);
    LoopVerdictBound(grid, s);
    if o == Loops {
      var i: nat, j: nat :| j <= 4 * Width(grid) * |grid| && Repeats(step, s, i, j);
      forall n: nat ensures !ExitsAt(step, s, n) && !TrappedAt(step, s, n) {
        RepeatNeverEnds(step, s, i, j, n);
      }
    } else {
      var n: nat :| ExitsAt(step, s, n) || TrappedAt(step, s, n);
      forall i: nat, j: nat ensures !Repeats(step, s, i, j) {
        if Repeats(step, s, i, j) {
          RepeatNeverEnds(step, s, i, j, n);
        }
      }
      forall m: nat | ExitsAt(step, s, m) || TrappedAt(step, s, m) ensures m == n && (ExitsAt(step, s, m) <==> ExitsAt(step, s, n)) {
        EndsOnce(step, s, n, m);
      }
    }
  }

  /** The answer comes within 4·W·H steps: a repeat by then, or the step that
      leaves the grid (or finds the guard walled in) before then. */
  lemma LoopVerdictBound(grid: Grid<char>, s: Guard)
    requires Grid6(grid) && OnGrid(grid, s)
    ensures var o, step, bound := MoveGuardTilOffGridOrInLoop(grid, s), Walker(grid), 4 * Width(grid) * |grid|;
            && (o == Loops ==> exists i: nat, j: nat :: j <= bound && Repeats(step, s, i, j))
            && (o == LeavesGrid ==> exists n: nat :: n < bound && ExitsAt(step, s, n))
            && (o == Trapped ==> exists n: nat :: n < bound && TrappedAt(step, s, n))
  {
    WalkerClosed(grid);
    AllStatesCount(grid);
    InAllStates(grid, s);
    var step, states := Walker(grid), AllStates(grid);
    assert Seen(step, s, 0) == {s} by {
      assert Reach(step, s, 0) == Some(s);
    }
    assert LoopInvariant(step, states, s, 0, {s});
    var o := MoveGuardTilOffGridOrInLoop(grid, s);
    assert o == LoopCheck(step, states, s, {s});
    if o == Loops {
      LoopCheckLoops(step, states, s, 0, {s});
    } else if o == LeavesGrid {
      LoopCheckLeaves(step, states, s, 0, {s});
    } else {
      LoopCheckTrapped(step, states, s, 0, {s});
    }
  }

  /** On a grid where challenge 2 finds a loop, the walk of challenge 1 never
      leaves the grid, whatever the fuel. */
  lemma LoopingWalkNeverLeaves(grid: Grid<char>, s: Guard, fuel: nat)
    requires Grid6(grid) && OnGrid(grid, s)
    requires MoveGuardTilOffGridOrInLoop(grid, s) == Loops
    ensures MoveGuardTilOffGrid(grid, s, fuel) == OutOfFuel
  {
    LoopVerdictMeaning(grid, s);
    var i: nat, j: nat :| Repeats(Walker(grid), s, i, j);
    RepeatingWalkRunsOut(Walker(grid), s, i, j, fuel);
  }

  /** A walk that repeats a state only ever runs out of fuel. */
  lemma RepeatingWalkRunsOut(step: Stepper, s: Guard, i: nat, j: nat, fuel: nat)
    requires Repeats(step, s, i, j)
    ensures WalkFrom(step, s, fuel) == OutOfFuel
  {
    var n := WalkEndIndex(step, s, fuel);
    RepeatNeverEnds(step, s, i, j, n);
  }

  /** The step at which a finished walk ended. */
  lemma WalkEndIndex(step: Stepper, g: Guard, fuel: nat) returns (n: nat)
    ensures WalkFrom(step, g, fuel).Path? ==> ExitsAt(step, g, n)
    ensures WalkFrom(step, g, fuel).Stuck? ==> TrappedAt(step, g, n)
  {
    var w := WalkFrom(step, g, fuel);
    if w.Path? {
      WalkEndsAtExit(step, g, fuel);
      n := |w.positions| - 1;
    } else if w.Stuck? {
      WalkStuckIsTrapped(step, g, fuel);
      n :| TrappedAt(step, g, n);
    } else {
      n := 0;
    }
  }

  /** Where challenge 2 finds the guard leaving, the walk of challenge 1
      leaves too, within 4·W·H steps. */
  lemma LeavingWalkFinishes(grid: Grid<char>, s: Guard)
    requires Grid6(grid) && OnGrid(grid, s)
    requires MoveGuardTilOffGridOrInLoop(grid, s) == LeavesGrid
    ensures MoveGuardTilOffGrid(grid, s, 4 * Width(grid) * |grid|).Path?
  {
    var step := Walker(grid);
    LoopVerdictBound(grid, s);
    var n: nat :| n < 4 * Width(grid) * |grid| && ExitsAt(step, s, n);
    WalkFinishes(step, s, n);
    WalkMoreFuel(step, s, n, 4 * Width(grid) * |grid|);
  }

  /** More fuel changes nothing once the walk has ended. */
  lemma {:induction false} WalkMoreFuel(step: Stepper, g: Guard, fuel: nat, more: nat)
    requires fuel <= more && !WalkFrom(step, g, fuel).OutOfFuel?
    ensures WalkFrom(step, g, more) == WalkFrom(step, g, fuel)
    decreases fuel
  {
    if step(g).Moved? {
      WalkMoreFuel(step, step(g).next, fuel - 1, more - 1);
    }
  }

  // ---------------------------------------------------------------------
  // Where the guard can be walled in

  /** The cell a state stands on is no obstacle, when the start is none. */
  lemma {:induction false} ReachOnFloor(grid: Grid<char>, s: Guard, n: nat)
    requires Grid6(grid) && OnGrid(grid, s) && grid[s.pos.y][s.pos.x] != Obstacle
    requires Reach(Walker(grid), s, n).Some?
    ensures OnGrid(grid, Reach(Walker(grid), s, n).value)
    ensures var p := Reach(Walker(grid), s, n).value.pos; grid[p.y][p.x] != Obstacle
  {
    WalkerStaysOnGrid(grid);
    if n > 0 {
      ReachEarlier(Walker(grid), s, n, n - 1);
      ReachOnFloor(grid, s, n - 1);
    }
  }

  /** The way back to where the guard came from. */
  function Opposite(d: Direction): Direction
  {
    TurnTimes(d, 2)
  }

  lemma AheadAndBack(p: Pos, d: Direction)
    ensures Ahead(Ahead(p, d), Opposite(d)) == p
  {
  }

  /** After a step the cell behind the guard is open, so only the start can be
      walled in: the source's endless recursion can only happen on the first
      call. */
  lemma TrappedOnlyAtStart(grid: Grid<char>, s: Guard, n: nat)
    requires Grid6(grid) && OnGrid(grid, s) && grid[s.pos.y][s.pos.x] != Obstacle
    ensures TrappedAt(Walker(grid), s, n) <==> n == 0 && WalledIn(grid, s.pos)
  {
    var step := Walker(grid);
    assert Reach(step, s, 0) == Some(s);
    NextGuardMeaning(grid, s);
    if n > 0 && Reach(step, s, n).Some? {
      ReachEarlier(step, s, n, n - 1);
      var h := Reach(step, s, n - 1).value;
      ReachOnFloor(grid, s, n - 1);
      ReachOnFloor(grid, s, n);
      var m := Reach(step, s, n).value;
      assert m == NextGuard(grid, h).next;
      AheadAndBack(h.pos, m.dir);
      AheadInGrid(grid, m.pos, Opposite(m.dir));
      assert !Blocked(grid, m.pos, Opposite(m.dir));
      NextGuardMeaning(grid, m);
    }
  }

  // ---------------------------------------------------------------------
  // tryAllExtraObstacles

  /** One trial: the grid with an obstacle added at (x, y). */
  function Trial(grid: Grid<char>, g: Guard, x: int, y: int): Verdict
    requires Grid6(grid) && OnGrid(grid, g) && InGrid(grid, x, y)
  {
    var trialGrid := SetCell(grid, x, y, Obstacle);
    assert Grid6(trialGrid);
    MoveGuardTilOffGridOrInLoop(trialGrid, g)
  }

  /** A floor cell, scored 1, with `y` the outer index of the scan. */
  function FloorScore(grid: Grid<char>): (int, int) -> nat
  {
    (y: int, x: int) => if InGrid(grid, x, y) && grid[y][x] == Floor then 1 else 0
  }

  /** 1 for a floor cell whose trial ends with `want`. */
  function CellScore(grid: Grid<char>, g: Guard, want: Verdict, x: int, y: int): nat
  {
    if Grid6(grid) && OnGrid(grid, g) && InGrid(grid, x, y) && grid[y][x] == Floor
       && Trial(grid, g, x, y) == want then 1 else 0
  }

  /** 1 for a floor cell whose trial loops. */
  function LoopScore(grid: Grid<char>, g: Guard): (int, int) -> nat
  {
    (y: int, x: int) => CellScore(grid, g, Loops, x, y)
  }

  /** 1 for a floor cell whose trial walls the guard in. */
  function TrapScore(grid: Grid<char>, g: Guard): (int, int) -> nat
  {
    (y: int, x: int) => CellScore(grid, g, Trapped, x, y)
  }

  /** tryAllExtraObstacles: the number of floor cells where an extra
      obstacle makes the guard loop, or `None` when some trial walls the
      guard in and the source's recursion overflows the stack. */
  function TryAllExtraObstacles(grid: Grid<char>, g: Guard): Option<nat>
  {
    if SumScan(TrapScore(grid, g), |grid|, Width(grid)) > 0 then None
    else Some(SumScan(LoopScore(grid, g), |grid|, Width(grid)))
  }

  /** The loops of tryAllExtraObstacles over the rows and the cells of each
      row. */
  method CountLoopObstacles(grid: Grid<char>, g: Guard) returns (count: Option<nat>)
    requires Grid6(grid) && OnGrid(grid, g)
    ensures count == TryAllExtraObstacles(grid, g)
  {
    var n, stuck := 0, 0;
    for y := 0 to |grid|
      invariant n == SumScan(LoopScore(grid, g), y, Width(grid))
      invariant stuck == SumScan(TrapScore(grid, g), y, Width(grid))
    {
      var rowLoops, rowTraps := TryRow(grid, g, y);
      n, stuck := n + rowLoops, stuck + rowTraps;
    }
    count := if stuck > 0 then None else Some(n);
  }

  /** The inner loop of tryAllExtraObstacles, over the cells of row `y`:
      how many trials loop and how many wall the guard in. */
  method TryRow(grid: Grid<char>, g: Guard, y: nat) returns (loops: nat, traps: nat)
    requires Grid6(grid) && OnGrid(grid, g) && y < |grid|
    ensures loops == SumColumn(LoopScore(grid, g), y, Width(grid))
    ensures traps == SumColumn(TrapScore(grid, g), y, Width(grid))
  {
    loops, traps := 0, 0;
    for x := 0 to |grid[y]|
      invariant loops == SumColumn(LoopScore(grid, g), y, x)
      invariant traps == SumColumn(TrapScore(grid, g), y, x)
    {
      ScoreAt(grid, g, x, y);
      if grid[y][x] == Floor {
        var verdict := Trial(grid, g, x, y);
        if verdict == Loops {
          loops := loops + 1;
        } else if verdict == Trapped {
          traps := traps + 1;
        }
      }
    }
  }

  /** What the two scores of an in-grid cell are. */
  lemma ScoreAt(grid: Grid<char>, g: Guard, x: int, y: int)
    requires Grid6(grid) && OnGrid(grid, g) && InGrid(grid, x, y)
    ensures LoopScore(grid, g)(y, x) == if grid[y][x] == Floor && Trial(grid, g, x, y) == Loops then 1 else 0
    ensures TrapScore(grid, g)(y, x) == if grid[y][x] == Floor && Trial(grid, g, x, y) == Trapped then 1 else 0
  {
  }

  /** Only floor cells are tried, so the count is at most their number. */
  lemma LoopCountBound(grid: Grid<char>, g: Guard)
    requires TryAllExtraObstacles(grid, g).Some?
    ensures TryAllExtraObstacles(grid, g).value <= SumScan(FloorScore(grid), |grid|, Width(grid))
  {
    SumScanMono(LoopScore(grid, g), FloorScore(grid), |grid|, Width(grid));
  }

  /** Obstacles and the start are never tried: a cell that scores is floor. */
  lemma OnlyFloorTried(grid: Grid<char>, g: Guard, x: int, y: int)
    requires LoopScore(grid, g)(y, x) == 1 || TrapScore(grid, g)(y, x) == 1
    ensures InGrid(grid, x, y) && grid[y][x] == Floor
    ensures grid[y][x] != Obstacle && grid[y][x] != Start
  {
  }

  /** A trial walls the guard in exactly when the added obstacle closes the
      last open side of the start (on a grid whose start is `^`). */
  lemma TrappedTrialClosesStart(grid: Grid<char>, g: Guard, x: int, y: int)
    requires Grid6(grid) && OnGrid(grid, g) && grid[g.pos.y][g.pos.x] == Start
    requires InGrid(grid, x, y) && grid[y][x] == Floor
    ensures Trial(grid, g, x, y) == Trapped <==> WalledIn(SetCell(grid, x, y, Obstacle), g.pos)
  {
    var trialGrid := SetCell(grid, x, y, Obstacle);
    assert Grid6(trialGrid);
    LoopVerdictMeaning(trialGrid, g);
    TrappedOnlyAtStart(trialGrid, g, 0);
    forall n: nat ensures TrappedAt(Walker(trialGrid), g, n) <==> n == 0 && WalledIn(trialGrid, g.pos) {
      TrappedOnlyAtStart(trialGrid, g, n);
    }
  }
}
