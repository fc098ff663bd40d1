/** Day 8, challenge 2: antennas of one frequency, taken in pairs, mark every
    grid position on the line through them at whole multiples of their
    offset; the answer is the number of distinct marked positions. */
module Antinodes {
  import opened Options
  import opened Seqs
  import opened Numbers
  import opened Grids

  const EmptySpace: char := '.'

  // ---------------------------------------------------------------------
  // getIndexesOfAntennas

  type Group = (char, seq<Pos>)

  /** `antennas.has(c)`: the index of the group labelled `c`. */
  function FindGroup(groups: seq<Group>, c: char): (r: Option<nat>)
    ensures r.Some? ==> r.value < |groups| && groups[r.value].0 == c
    ensures r.None? ==> forall i :: 0 <= i < |groups| ==> groups[i].0 != c
  {
    if |groups| == 0 then None
    else if groups[|groups| - 1].0 == c then Some(|groups| - 1)
    else FindGroup(groups[..|groups| - 1], c)
  }

  /** One step of the `forEach`: skip `.`, otherwise push the position onto
      its label's group, opening the group on first sight. */
  function AddAntenna(groups: seq<Group>, e: (Pos, char)): seq<Group>
  {
    if e.1 == EmptySpace then groups
    else match FindGroup(groups, e.1)
      case Some(i) => groups[i := (e.1, groups[i].1 + [e.0])]
      case None => groups + [(e.1, [e.0])]
  }

  function GroupAll(entries: seq<(Pos, char)>): seq<Group>
  {
    if |entries| == 0 then [] else AddAntenna(GroupAll(entries[..|entries| - 1]), entries[|entries| - 1])
  }

  /** getIndexesOfAntennas, as the `Map`'s entries in insertion order. */
  function GetIndexesOfAntennas(grid: Grid<char>): seq<Group>
  {
    GroupAll(Scan(grid))
  }

  /** What a `Map` from label to positions holds after the scan: one group per
      label other than `.` that occurs, holding that label's positions in
      scan order. */
  predicate Grouped(groups: seq<Group>, entries: seq<(Pos, char)>)
  {
    && (forall i :: 0 <= i < |groups| ==> groups[i].0 != EmptySpace && groups[i].1 == Positions(entries, groups[i].0))
    && (forall i, j :: 0 <= i < j < |groups| ==> groups[i].0 != groups[j].0)
    && (forall c :: FindGroup(groups, c).Some? <==> c != EmptySpace && |Positions(entries, c)| > 0)
  }

  lemma AddAntennaKeepsGrouped(groups: seq<Group>, entries: seq<(Pos, char)>, e: (Pos, char))
    requires Grouped(groups, entries)
    ensures Grouped(AddAntenna(groups, e), entries + [e])
  {
    PositionsSnocAll(entries, e);
    var g := AddAntenna(groups, e);
    if e.1 != EmptySpace {
      match FindGroup(groups, e.1)
      case Some(i) =>
        forall c ensures FindGroup(g, c).Some? <==> FindGroup(groups, c).Some? {
          FindGroupSameLabels(groups, g, c);
        }
      case None =>
        forall c ensures FindGroup(g, c).Some? <==> FindGroup(groups, c).Some? || c == e.1 {
          FindGroupSnoc(groups, (e.1, [e.0]), c);
        }
    }
  }

  lemma PositionsSnocAll(entries: seq<(Pos, char)>, e: (Pos, char))
    ensures forall c :: Positions(entries + [e], c) == Positions(entries, c) + (if e.1 == c then [e.0] else [])
  {
    forall c {
      PositionsSnoc(entries, e, c);
    }
  }

  lemma FindGroupSameLabels(groups: seq<Group>, g: seq<Group>, c: char)
    requires |g| == |groups| && forall i :: 0 <= i < |g| ==> g[i].0 == groups[i].0
    ensures FindGroup(g, c).Some? <==> FindGroup(groups, c).Some?
  {
    if FindGroup(g, c).Some? {
      var i := FindGroup(g, c).value;
      assert groups[i].0 == c;
    }
    if FindGroup(groups, c).Some? {
      var i := FindGroup(groups, c).value;
      assert g[i].0 == c;
    }
  }

  lemma FindGroupSnoc(groups: seq<Group>, x: Group, c: char)
    ensures FindGroup(groups + [x], c).Some? <==> FindGroup(groups, c).Some? || c == x.0
  {
    assert (groups + [x])[..|groups|] == groups;
    if FindGroup(groups, c).Some? {
      var i := FindGroup(groups, c).value;
      assert (groups + [x])[i].0 == c;
    }
  }

  /** The scan groups every labelled position under its label. */
  lemma {:induction false} GroupAllGrouped(entries: seq<(Pos, char)>)
    ensures Grouped(GroupAll(entries), entries)
  {
    if |entries| == 0 {
    } else {
      var n := |entries| - 1;
      GroupAllGrouped(entries[..n]);
      AddAntennaKeepsGrouped(GroupAll(entries[..n]), entries[..n], entries[n]);
      assert entries[..n] + [entries[n]] == entries;
    }
  }

  /** getIndexesOfAntennas: one group per frequency that occurs, holding
      exactly the cells of that frequency, in row-major order. */
  lemma AntennasGrouped(grid: Grid<char>)
    ensures Grouped(GetIndexesOfAntennas(grid), Scan(grid))
    ensures forall i, p :: 0 <= i < |GetIndexesOfAntennas(grid)| ==>
              var g := GetIndexesOfAntennas(grid)[i];
              (p in g.1 <==> InGrid(grid, p.x, p.y) && grid[p.y][p.x] == g.0)
    ensures forall i :: 0 <= i < |GetIndexesOfAntennas(grid)| ==>
              var ps := GetIndexesOfAntennas(grid)[i].1;
              forall j, k :: 0 <= j < k < |ps| ==> Before(ps[j], ps[k])
  {
    var groups := GetIndexesOfAntennas(grid);
    GroupAllGrouped(Scan(grid));
    forall i, p | 0 <= i < |groups|
      ensures p in groups[i].1 <==> InGrid(grid, p.x, p.y) && grid[p.y][p.x] == groups[i].0
    {
      PositionsMeaning(Scan(grid), groups[i].0, p);
    }
    forall i | 0 <= i < |groups|
      ensures var ps := groups[i].1; forall j, k :: 0 <= j < k < |ps| ==> Before(ps[j], ps[k])
    {
      PositionsOrdered(Scan(grid), groups[i].0);
    }
  }

  // ---------------------------------------------------------------------
  // getAllPairs

  /** Each element paired with every later one, in order. */
  function GetAllPairs<T>(cs: seq<T>): (pairs: seq<(T, T)>)
  {
    if |cs| == 0 then []
    else seq(|cs| - 1, k requires 0 <= k < |cs| - 1 => (cs[0], cs[k + 1])) + GetAllPairs(cs[1..])
  }

  /** n elements make n(n-1)/2 pairs. */
  lemma {:induction false} PairsCount<T>(cs: seq<T>)
    ensures 2 * |GetAllPairs(cs)| == |cs| * (|cs| - 1)
  {
    if |cs| > 0 {
      PairsCount(cs[1..]);
    }
  }

  /** The pairs are exactly the `(cs[i], cs[j])` with `i < j`. */
  lemma {:induction false} PairsMeaning<T>(cs: seq<T>, x: T, y: T)
    ensures (x, y) in GetAllPairs(cs) <==> exists i, j :: 0 <= i < j < |cs| && x == cs[i] && y == cs[j]
  {
    if |cs| > 0 {
      var head := seq(|cs| - 1, k requires 0 <= k < |cs| - 1 => (cs[0], cs[k + 1]));
      PairsMeaning(cs[1..], x, y);
      if (x, y) in head {
        var k :| 0 <= k < |head| && head[k] == (x, y);
        assert x == cs[0] && y == cs[k + 1];
      }
      if exists i, j :: 0 <= i < j < |cs| && x == cs[i] && y == cs[j] {
        var i, j :| 0 <= i < j < |cs| && x == cs[i] && y == cs[j];
        if i == 0 {
          assert head[j - 1] == (x, y);
        } else {
          assert x == cs[1..][i - 1] && y == cs[1..][j - 1];
        }
      }
    }
  }

  /** Over distinct elements no pair is listed twice. */
  lemma {:induction false} PairsDistinct<T>(cs: seq<T>)
    requires NoDup(cs)
    ensures NoDup(GetAllPairs(cs))
  {
    if |cs| > 0 {
      var head := seq(|cs| - 1, k requires 0 <= k < |cs| - 1 => (cs[0], cs[k + 1]));
      var tail := GetAllPairs(cs[1..]);
      PairsDistinct(cs[1..]);
      forall q | q in tail
        ensures q.0 != cs[0]
      {
        PairsMeaning(cs[1..], q.0, q.1);
      }
      forall i, j | 0 <= i < j < |head + tail|
        ensures (head + tail)[i] != (head + tail)[j]
      {
        if j < |head| {
          assert head[i].1 == cs[i + 1] && head[j].1 == cs[j + 1];
        } else if i < |head| {
          assert (head + tail)[j] in tail;
        }
      }
    }
  }

  /** Pairs of distinct elements have distinct halves. */
  lemma PairsOfDistinct<T>(cs: seq<T>, x: T, y: T)
    requires NoDup(cs) && (x, y) in GetAllPairs(cs)
    ensures x != y && x in cs && y in cs
  {
    PairsMeaning(cs, x, y);
  }

  // ---------------------------------------------------------------------
  // getAntiNodes

  predicate InBox(p: Pos, maxX: int, maxY: int)
  {
    0 <= p.x <= maxX && 0 <= p.y <= maxY
  }

  /** The `i`-th point of the first loop, computed as the source does: step
      `deltaX`, `deltaY` away from `b`, the sign chosen by comparison. */
  function Step(a: Pos, b: Pos, i: int): Pos
  {
    var deltaX, deltaY := Abs(a.x - b.x), Abs(a.y - b.y);
    Pos(if a.x < b.x then a.x - deltaX * i else a.x + deltaX * i,
        if a.y < b.y then a.y - deltaY * i else a.y + deltaY * i)
  }

  /** The point `a + k·(a - b)`. */
  function LinePoint(a: Pos, b: Pos, k: int): Pos
  {
    Pos(a.x + k * (a.x - b.x), a.y + k * (a.y - b.y))
  }

  lemma MulNeg(d: int, i: int)
    ensures -d * i == -(d * i) && (-d) * i == d * (-i)
  {
  }

  /** The source's sign juggling is the line through `a` and `b`. */
  lemma StepIsLinePoint(a: Pos, b: Pos, i: int)
    ensures Step(a, b, i) == LinePoint(a, b, i)
  {
    MulNeg(a.x - b.x, i);
    MulNeg(a.y - b.y, i);
  }

  /** Walking from `b` away from `a` is the same line read backwards. */
  lemma LineFromOtherEnd(a: Pos, b: Pos, j: int)
    ensures LinePoint(b, a, j) == LinePoint(a, b, -(j + 1))
  {
    assert b.x + j * (b.x - a.x) == a.x + (-(j + 1)) * (a.x - b.x);
    assert b.y + j * (b.y - a.y) == a.y + (-(j + 1)) * (a.y - b.y);
  }

  /** A loop of getAntiNodes from index `i` up to `limit`, stopping at the
      first point off the grid. */
  function Ray(a: Pos, b: Pos, i: int, limit: int, maxX: int, maxY: int): (r: seq<Pos>)
    ensures forall q :: q in r ==> InBox(q, maxX, maxY)
    decreases if i > limit then 0 else limit - i + 1
  {
    if i > limit then []
    else
      var p := Step(a, b, i);
      if p.x < 0 || p.x > maxX || p.y < 0 || p.y > maxY then []
      else [p] + Ray(a, b, i + 1, limit, maxX, maxY)
  }

  /** getAntiNodes with the loop bound as a parameter: `a`, `b`, then the
      points beyond `a` (from index 1), then those from `b` on (from index 0). */
  function AntiNodesUpTo(a: Pos, b: Pos, maxX: int, maxY: int, limit: int): (r: seq<Pos>)
    ensures |r| >= 2 && r[0] == a && r[1] == b
    ensures forall i :: 2 <= i < |r| ==> InBox(r[i], maxX, maxY)
  {
    var r := [a, b] + Ray(a, b, 1, limit, maxX, maxY) + Ray(b, a, 0, limit, maxX, maxY);
    assert forall i :: 2 <= i < |r| ==> r[i] in Ray(a, b, 1, limit, maxX, maxY) + Ray(b, a, 0, limit, maxX, maxY);
    r
  }

  /** getAntiNodes as written: both loops stop after `maxX * maxY` steps. */
  function GetAntiNodesAsWritten(a: Pos, b: Pos, maxX: int, maxY: int): seq<Pos>
  {
    AntiNodesUpTo(a, b, maxX, maxY, maxX * maxY)
  }

  /** getAntiNodes with a bound that never cuts a loop short: the number of
      cells, `(maxX + 1) * (maxY + 1)`. */
  function GetAntiNodes(a: Pos, b: Pos, maxX: int, maxY: int): seq<Pos>
  {
    AntiNodesUpTo(a, b, maxX, maxY, (maxX + 1) * (maxY + 1))
  }

  /** `p` is on the line through `a` and `b` at a whole multiple of `b - a`. */
  ghost predicate OnLine(a: Pos, b: Pos, p: Pos)
  {
    exists k: int :: p == LinePoint(a, b, k)
  }

  /** Every point of a ray is a point of the line from index `i` on. */
  lemma {:induction false} RaySound(a: Pos, b: Pos, i: int, limit: int, maxX: int, maxY: int, q: Pos)
    requires q in Ray(a, b, i, limit, maxX, maxY)
    ensures exists j: int :: j >= i && q == LinePoint(a, b, j)
    decreases if i > limit then 0 else limit - i + 1
  {
    StepIsLinePoint(a, b, i);
    if q != Step(a, b, i) {
      RaySound(a, b, i + 1, limit, maxX, maxY, q);
    }
  }

  lemma MulMono(l: int, k: int, d: int)
    requires l <= k
    ensures d >= 0 ==> l * d <= k * d
    ensures d < 0 ==> k * d <= l * d
  {
    assert (k - l) * d == k * d - l * d;
    if d >= 0 {
      MulAtLeastZero(k - l, d);
    } else {
      MulAtLeastZero(k - l, -d);
    }
  }

  lemma MulAtLeastZero(a: int, b: int)
    requires a >= 0 && b >= 0
    ensures a * b >= 0
  {
  }

  /** One coordinate of the line stays in `[0, m]` between two in-range
      indices. */
  lemma CoordBetween(x0: int, d: int, k: int, l: int, m: int)
    requires 0 <= x0 <= m && 0 <= x0 + k * d <= m && 0 <= l <= k
    ensures 0 <= x0 + l * d <= m
  {
    MulMono(0, l, d);
    MulMono(l, k, d);
  }

  /** The grid is convex: between `a` and an in-grid point of the line, every
      point of the line is in the grid. */
  lemma LineConvex(a: Pos, b: Pos, k: int, l: int, maxX: int, maxY: int)
    requires InBox(a, maxX, maxY) && InBox(LinePoint(a, b, k), maxX, maxY) && 0 <= l <= k
    ensures InBox(LinePoint(a, b, l), maxX, maxY)
  {
    CoordBetween(a.x, a.x - b.x, k, l, maxX);
    CoordBetween(a.y, a.y - b.y, k, l, maxY);
  }

  /** One coordinate that moves at all leaves `[0, m]` within `m + 1` steps. */
  lemma CoordBound(x0: int, d: int, k: int, m: int)
    requires 0 <= x0 <= m && 0 <= x0 + k * d <= m && d != 0 && k >= 0
    ensures k <= m
  {
    if d > 0 {
      MulMono(1, d, k);
    } else {
      MulMono(d, -1, k);
    }
  }

  /** In-grid points of the line lie within `maxX` (or, on a vertical line,
      `maxY`) steps of `a`. */
  lemma LineBound(a: Pos, b: Pos, k: int, maxX: int, maxY: int)
    requires a != b && InBox(a, maxX, maxY) && InBox(LinePoint(a, b, k), maxX, maxY) && k >= 0
    ensures a.x != b.x ==> k <= maxX
    ensures a.x == b.x ==> k <= maxY
  {
    if a.x != b.x {
      CoordBound(a.x, a.x - b.x, k, maxX);
    } else {
      CoordBound(a.y, a.y - b.y, k, maxY);
    }
  }

  /** A ray contains its in-grid point `j` when every point before it is in
      the grid and `j` is within the loop bound. */
  lemma {:induction false} RayComplete(a: Pos, b: Pos, i: int, j: int, limit: int, maxX: int, maxY: int)
    requires i <= j <= limit
    requires forall l :: i <= l <= j ==> InBox(LinePoint(a, b, l), maxX, maxY)
    ensures LinePoint(a, b, j) in Ray(a, b, i, limit, maxX, maxY)
    decreases j - i
  {
    StepIsLinePoint(a, b, i);
    if i < j {
      RayComplete(a, b, i + 1, j, limit, maxX, maxY);
    }
  }

  /** An in-grid point `k >= i` of the line (`i` is 0 or 1) is on the ray
      from `a`, given the bound leaves room for it. */
  lemma LineInRay(a: Pos, b: Pos, i: int, k: int, limit: int, maxX: int, maxY: int)
    requires a != b && InBox(a, maxX, maxY) && InBox(LinePoint(a, b, k), maxX, maxY)
    requires 0 <= i <= k && maxX + maxY <= limit
    ensures LinePoint(a, b, k) in Ray(a, b, i, limit, maxX, maxY)
  {
    LineBound(a, b, k, maxX, maxY);
    forall l | i <= l <= k
      ensures InBox(LinePoint(a, b, l), maxX, maxY)
    {
      LineConvex(a, b, k, l, maxX, maxY);
    }
    RayComplete(a, b, i, k, limit, maxX, maxY);
  }

  lemma CellCountBound(maxX: int, maxY: int)
    requires maxX >= 0 && maxY >= 0
    ensures maxX + maxY <= (maxX + 1) * (maxY + 1)
  {
    MulAtLeastZero(maxX, maxY);
  }

  /** The antinodes of a pair are exactly the in-grid points of the line
      through them. */
  lemma AntiNodesAreLine(a: Pos, b: Pos, maxX: int, maxY: int)
    requires a != b && InBox(a, maxX, maxY) && InBox(b, maxX, maxY)
    ensures forall p :: p in GetAntiNodes(a, b, maxX, maxY) <==> InBox(p, maxX, maxY) && OnLine(a, b, p)
  {
    var limit := (maxX + 1) * (maxY + 1);
    var fromA, fromB := Ray(a, b, 1, limit, maxX, maxY), Ray(b, a, 0, limit, maxX, maxY);
    assert GetAntiNodes(a, b, maxX, maxY) == [a, b] + fromA + fromB;
    assert a == LinePoint(a, b, 0);
    assert b == LinePoint(a, b, -1);
    forall p | p in fromA
      ensures OnLine(a, b, p)
    {
      RaySound(a, b, 1, limit, maxX, maxY, p);
    }
    forall p | p in fromB
      ensures OnLine(a, b, p)
    {
      RaySound(b, a, 0, limit, maxX, maxY, p);
      var j: int :| j >= 0 && p == LinePoint(b, a, j);
      LineFromOtherEnd(a, b, j);
    }
    CellCountBound(maxX, maxY);
    forall p | InBox(p, maxX, maxY) && OnLine(a, b, p)
      ensures p in GetAntiNodes(a, b, maxX, maxY)
    {
      var k: int :| p == LinePoint(a, b, k);
      if k >= 1 {
        LineInRay(a, b, 1, k, limit, maxX, maxY);
      } else if k <= -1 {
        LineFromOtherEnd(a, b, -k - 1);
        assert LinePoint(b, a, -k - 1) == p;
        LineInRay(b, a, 0, -k - 1, limit, maxX, maxY);
      }
    }
  }

  /** On a grid one cell high the as-written bound `maxX * maxY` is 0: the
      first loop never runs and the second only re-adds `b`, so `(4, 0)`,
      on the line through `(0, 0)` and `(2, 0)`, is missed. */
  lemma AsWrittenMissesThinGrids(a: Pos, b: Pos, p: Pos, maxX: int, maxY: int)
    requires a == Pos(0, 0) && b == Pos(2, 0) && p == Pos(4, 0) && maxX == 4 && maxY == 0
    ensures InBox(p, maxX, maxY) && OnLine(a, b, p)
    ensures p !in GetAntiNodesAsWritten(a, b, maxX, maxY)
    ensures p in GetAntiNodes(a, b, maxX, maxY)
  {
    ThinGridOnLine(a, b, p, maxX, maxY);
    ThinGridAsWritten(a, b, p, maxX, maxY);
    ThinGridCorrected(a, b, p, maxX, maxY);
  }

  lemma ThinGridOnLine(a: Pos, b: Pos, p: Pos, maxX: int, maxY: int)
    requires a == Pos(0, 0) && b == Pos(2, 0) && p == Pos(4, 0) && maxX == 4 && maxY == 0
    ensures InBox(p, maxX, maxY)
    ensures OnLine(a, b, p)
  {
    OnLineAt(a, b, p, -2);
  }

  lemma OnLineAt(a: Pos, b: Pos, p: Pos, k: int)
    requires p == LinePoint(a, b, k)
    ensures OnLine(a, b, p)
  {
  }

  /** The as-written loops on that grid yield only `a` and `b`. */
  lemma ThinGridAsWritten(a: Pos, b: Pos, p: Pos, maxX: int, maxY: int)
    requires a == Pos(0, 0) && b == Pos(2, 0) && p == Pos(4, 0) && maxX == 4 && maxY == 0
    ensures p !in GetAntiNodesAsWritten(a, b, maxX, maxY)
  {
    ThinRays();
    assert GetAntiNodesAsWritten(a, b, 4, 0) == [a, b] + [] + [b];
  }

  /** With the corrected bound the second loop walks on from `b` to `(4, 0)`. */
  lemma ThinGridCorrected(a: Pos, b: Pos, p: Pos, maxX: int, maxY: int)
    requires a == Pos(0, 0) && b == Pos(2, 0) && p == Pos(4, 0) && maxX == 4 && maxY == 0
    ensures p in GetAntiNodes(a, b, maxX, maxY)
  {
    assert Step(b, a, 1) == p;
    assert Step(b, a, 2) == Pos(6, 0);
    assert Ray(b, a, 2, 5, 4, 0) == [];
    assert Ray(b, a, 1, 5, 4, 0) == [p];
  }

  /** The two loops on the one-row grid of `AsWrittenMissesThinGrids`. */
  lemma ThinRays()
    ensures Ray(Pos(0, 0), Pos(2, 0), 1, 0, 4, 0) == []
    ensures Ray(Pos(2, 0), Pos(0, 0), 0, 0, 4, 0) == [Pos(2, 0)]
  {
    assert Step(Pos(2, 0), Pos(0, 0), 0) == Pos(2, 0);
    assert Ray(Pos(2, 0), Pos(0, 0), 1, 0, 4, 0) == [];
  }

  /** Two loop bounds give the same ray when no point past `m` is in the
      grid and both bounds reach `m`. */
  lemma {:induction false} RayLimits(a: Pos, b: Pos, i: int, m: int, l1: int, l2: int, maxX: int, maxY: int)
    requires m <= l1 && m <= l2
    requires forall j :: j > m && j >= i ==> !InBox(LinePoint(a, b, j), maxX, maxY)
    ensures Ray(a, b, i, l1, maxX, maxY) == Ray(a, b, i, l2, maxX, maxY)
    decreases if i > m then 0 else m - i + 1
  {
    StepIsLinePoint(a, b, i);
    if i <= m {
      RayLimits(a, b, i + 1, m, l1, l2, maxX, maxY);
    }
  }

  /** Past `max(maxX, maxY)` the line has left the grid. */
  lemma LineLeaves(a: Pos, b: Pos, maxX: int, maxY: int, m: int)
    requires a != b && InBox(a, maxX, maxY) && maxX <= m && maxY <= m
    ensures forall j :: j > m ==> !InBox(LinePoint(a, b, j), maxX, maxY)
  {
    forall j | j > m
      ensures !InBox(LinePoint(a, b, j), maxX, maxY)
    {
      if InBox(LinePoint(a, b, j), maxX, maxY) {
        LineBound(a, b, j, maxX, maxY);
      }
    }
  }

  /** On grids at least two cells wide and high the as-written bound is
      enough, and both versions agree. */
  lemma AsWrittenAgreesOnWideGrids(a: Pos, b: Pos, maxX: int, maxY: int)
    requires a != b && InBox(a, maxX, maxY) && InBox(b, maxX, maxY)
    requires maxX >= 1 && maxY >= 1
    ensures GetAntiNodesAsWritten(a, b, maxX, maxY) == GetAntiNodes(a, b, maxX, maxY)
  {
    var m := if maxX >= maxY then maxX else maxY;
    MulMono(1, maxY, maxX);
    MulMono(1, maxX, maxY);
    CellCountBound(maxX, maxY);
    LineLeaves(a, b, maxX, maxY, m);
    LineLeaves(b, a, maxX, maxY, m);
    RayLimits(a, b, 1, m, maxX * maxY, (maxX + 1) * (maxY + 1), maxX, maxY);
    RayLimits(b, a, 0, m, maxX * maxY, (maxX + 1) * (maxY + 1), maxX, maxY);
  }

  // ---------------------------------------------------------------------
  // getAllAntiNodes and filterUniqueCoordinates

  /** The antinodes of each pair, concatenated in order. */
  function PairsAntiNodes(pairs: seq<(Pos, Pos)>, maxX: int, maxY: int): seq<Pos>
  {
    if |pairs| == 0 then []
    else PairsAntiNodes(pairs[..|pairs| - 1], maxX, maxY)
         + GetAntiNodes(pairs[|pairs| - 1].0, pairs[|pairs| - 1].1, maxX, maxY)
  }

  /** The antinodes of every frequency's pairs, in group order. */
  function GroupsAntiNodes(groups: seq<Group>, maxX: int, maxY: int): seq<Pos>
  {
    if |groups| == 0 then []
    else GroupsAntiNodes(groups[..|groups| - 1], maxX, maxY)
         + PairsAntiNodes(GetAllPairs(groups[|groups| - 1].1), maxX, maxY)
  }

  /** filterUniqueCoordinates: one entry per distinct position, first
      occurrence first. */
  function FilterUniqueCoordinates(ps: seq<Pos>): (r: seq<Pos>)
    ensures NoDup(r) && forall p :: p in r <==> p in ps
  {
    Dedup(ps)
  }

  function GetAllAntiNodes(groups: seq<Group>, maxX: int, maxY: int): seq<Pos>
  {
    FilterUniqueCoordinates(GroupsAntiNodes(groups, maxX, maxY))
  }

  /** Some pair of one group, in pair order, marks `p`. */
  ghost predicate MarkedBy(groups: seq<Group>, p: Pos, maxX: int, maxY: int)
  {
    exists i, a, b :: 0 <= i < |groups| && (a, b) in GetAllPairs(groups[i].1) && p in GetAntiNodes(a, b, maxX, maxY)
  }

  lemma {:induction false} PairsAntiNodesMeaning(pairs: seq<(Pos, Pos)>, maxX: int, maxY: int, p: Pos)
    ensures p in PairsAntiNodes(pairs, maxX, maxY) <==> exists a, b :: (a, b) in pairs && p in GetAntiNodes(a, b, maxX, maxY)
  {
    if |pairs| > 0 {
      var n := |pairs| - 1;
      PairsAntiNodesMeaning(pairs[..n], maxX, maxY, p);
      assert pairs == pairs[..n] + [pairs[n]];
      if exists a, b :: (a, b) in pairs && p in GetAntiNodes(a, b, maxX, maxY) {
        var a, b :| (a, b) in pairs && p in GetAntiNodes(a, b, maxX, maxY);
        if (a, b) != pairs[n] {
          assert (a, b) in pairs[..n];
        }
      }
    }
  }

  lemma {:induction false} GroupsAntiNodesMeaning(groups: seq<Group>, maxX: int, maxY: int, p: Pos)
    ensures p in GroupsAntiNodes(groups, maxX, maxY) <==> MarkedBy(groups, p, maxX, maxY)
  {
    if |groups| > 0 {
      var n := |groups| - 1;
      GroupsAntiNodesMeaning(groups[..n], maxX, maxY, p);
      PairsAntiNodesMeaning(GetAllPairs(groups[n].1), maxX, maxY, p);
      if MarkedBy(groups, p, maxX, maxY) {
        var i, a, b :| 0 <= i < |groups| && (a, b) in GetAllPairs(groups[i].1) && p in GetAntiNodes(a, b, maxX, maxY);
        if i < n {
          assert groups[..n][i] == groups[i];
        }
      }
      if MarkedBy(groups[..n], p, maxX, maxY) {
        var i, a, b :| 0 <= i < n && (a, b) in GetAllPairs(groups[..n][i].1) && p in GetAntiNodes(a, b, maxX, maxY);
        assert groups[i] == groups[..n][i];
      }
    }
  }

  /** Two distinct cells of one frequency, the first before the second in
      row-major order, with `p` on their line. */
  ghost predicate Antinode(grid: Grid<char>, p: Pos)
  {
    exists a: Pos, b: Pos :: InGrid(grid, a.x, a.y) && InGrid(grid, b.x, b.y) && Before(a, b)
      && grid[a.y][a.x] != EmptySpace && grid[a.y][a.x] == grid[b.y][b.x]
      && OnLine(a, b, p)
  }

  /** The answer of challenge 2: the number of distinct in-grid positions on
      a line through two antennas of one frequency. */
  function CountAntiNodes(grid: Grid<char>): nat
    requires |grid| >= 1
  {
    |GetAllAntiNodes(GetIndexesOfAntennas(grid), |grid[0]| - 1, |grid| - 1)|
  }

  /** Every listed position is an in-grid antinode and every in-grid
      antinode is listed, once. */
  lemma CountAntiNodesMeaning(grid: Grid<char>)
    requires |grid| >= 1 && IsRect(grid)
    ensures var r := GetAllAntiNodes(GetIndexesOfAntennas(grid), |grid[0]| - 1, |grid| - 1);
            && NoDup(r)
            && forall p :: p in r <==> InGrid(grid, p.x, p.y) && Antinode(grid, p)
  {
    var groups := GetIndexesOfAntennas(grid);
    var maxX, maxY := |grid[0]| - 1, |grid| - 1;
    AntennasGrouped(grid);
    forall p ensures p in GetAllAntiNodes(groups, maxX, maxY) <==> InGrid(grid, p.x, p.y) && Antinode(grid, p)
    {
      GroupsAntiNodesMeaning(groups, maxX, maxY, p);
      if MarkedBy(groups, p, maxX, maxY) {
        var i, a, b :| 0 <= i < |groups| && (a, b) in GetAllPairs(groups[i].1) && p in GetAntiNodes(a, b, maxX, maxY);
        MarkedIsAntinode(grid, groups, i, a, b, p);
      }
      if InGrid(grid, p.x, p.y) && Antinode(grid, p) {
        AntinodeIsMarked(grid, p);
      }
    }
  }

  lemma MarkedIsAntinode(grid: Grid<char>, groups: seq<Group>, i: int, a: Pos, b: Pos, p: Pos)
    requires |grid| >= 1 && IsRect(grid)
    requires groups == GetIndexesOfAntennas(grid)
    requires 0 <= i < |groups| && (a, b) in GetAllPairs(groups[i].1)
    requires p in GetAntiNodes(a, b, |grid[0]| - 1, |grid| - 1)
    ensures InGrid(grid, p.x, p.y) && Antinode(grid, p)
  {
    PairOfGroup(grid, groups, i, a, b);
    AntiNodesAreLine(a, b, |grid[0]| - 1, |grid| - 1);
  }

  /** A pair of one group is two distinct antennas of that frequency, in
      row-major order. */
  lemma PairOfGroup(grid: Grid<char>, groups: seq<Group>, i: int, a: Pos, b: Pos)
    requires groups == GetIndexesOfAntennas(grid)
    requires 0 <= i < |groups| && (a, b) in GetAllPairs(groups[i].1)
    ensures InGrid(grid, a.x, a.y) && InGrid(grid, b.x, b.y) && Before(a, b)
    ensures grid[a.y][a.x] != EmptySpace && grid[a.y][a.x] == grid[b.y][b.x]
  {
    AntennasGrouped(grid);
    var ps := groups[i].1;
    PairsMeaning(ps, a, b);
    var j, k :| 0 <= j < k < |ps| && a == ps[j] && b == ps[k];
    assert a in ps && b in ps;
  }

  lemma AntinodeIsMarked(grid: Grid<char>, p: Pos)
    requires |grid| >= 1 && IsRect(grid)
    requires InGrid(grid, p.x, p.y) && Antinode(grid, p)
    ensures MarkedBy(GetIndexesOfAntennas(grid), p, |grid[0]| - 1, |grid| - 1)
  {
    var a: Pos, b: Pos :| InGrid(grid, a.x, a.y) && InGrid(grid, b.x, b.y) && Before(a, b)
      && grid[a.y][a.x] != EmptySpace && grid[a.y][a.x] == grid[b.y][b.x] && OnLine(a, b, p);
    PairMarks(grid, a, b, p);
  }

  /** An in-grid point on the line of two same-frequency antennas is marked
      by their pair. */
  lemma PairMarks(grid: Grid<char>, a: Pos, b: Pos, p: Pos)
    requires |grid| >= 1 && IsRect(grid)
    requires InGrid(grid, a.x, a.y) && InGrid(grid, b.x, b.y) && Before(a, b)
    requires grid[a.y][a.x] != EmptySpace && grid[a.y][a.x] == grid[b.y][b.x]
    requires InGrid(grid, p.x, p.y) && OnLine(a, b, p)
    ensures MarkedBy(GetIndexesOfAntennas(grid), p, |grid[0]| - 1, |grid| - 1)
  {
    var groups := GetIndexesOfAntennas(grid);
    var i := GroupOfPair(grid, groups, a, b);
    MarkedByWitness(groups, i, a, b, p, |grid[0]| - 1, |grid| - 1);
  }

  /** Two same-frequency antennas, in row-major order, are a pair of their
      frequency's group. */
  lemma GroupOfPair(grid: Grid<char>, groups: seq<Group>, a: Pos, b: Pos) returns (i: nat)
    requires groups == GetIndexesOfAntennas(grid)
    requires InGrid(grid, a.x, a.y) && InGrid(grid, b.x, b.y) && Before(a, b)
    requires grid[a.y][a.x] != EmptySpace && grid[a.y][a.x] == grid[b.y][b.x]
    ensures i < |groups| && (a, b) in GetAllPairs(groups[i].1)
  {
    var c := grid[a.y][a.x];
    AntennasGrouped(grid);
    PositionsMeaning(Scan(grid), c, a);
    i := FindGroup(groups, c).value;
    var ps := groups[i].1;
    assert a in ps && b in ps;
    PairOfOrdered(ps, a, b);
  }

  /** In a strictly ordered sequence, two members in order form a pair. */
  lemma PairOfOrdered(ps: seq<Pos>, a: Pos, b: Pos)
    requires forall j, k :: 0 <= j < k < |ps| ==> Before(ps[j], ps[k])
    requires a in ps && b in ps && Before(a, b)
    ensures (a, b) in GetAllPairs(ps)
  {
    var j :| 0 <= j < |ps| && ps[j] == a;
    var k :| 0 <= k < |ps| && ps[k] == b;
    OrderedRanks(ps, j, k);
    PairsMeaning(ps, a, b);
  }

  /** Index order follows `Before` order in a strictly ordered sequence. */
  lemma OrderedRanks(ps: seq<Pos>, j: int, k: int)
    requires forall j, k :: 0 <= j < k < |ps| ==> Before(ps[j], ps[k])
    requires 0 <= j < |ps| && 0 <= k < |ps|
    ensures Before(ps[j], ps[k]) ==> j < k
  {
    if k < j {
      assert Before(ps[k], ps[j]);
    }
  }

  lemma MarkedByWitness(groups: seq<Group>, i: int, a: Pos, b: Pos, p: Pos, maxX: int, maxY: int)
    requires 0 <= i < |groups| && (a, b) in GetAllPairs(groups[i].1)
    requires a != b && InBox(a, maxX, maxY) && InBox(b, maxX, maxY)
    requires InBox(p, maxX, maxY) && OnLine(a, b, p)
    ensures MarkedBy(groups, p, maxX, maxY)
  {
    AntiNodesAreLine(a, b, maxX, maxY);
    assert p in GetAntiNodes(a, b, maxX, maxY);
  }

  // ---------------------------------------------------------------------
  // getAllAntiNodes with the as-written per-pair bound

  /** The antinodes of each pair under the as-written bound `maxX * maxY`. */
  function PairsAntiNodesAsWritten(pairs: seq<(Pos, Pos)>, maxX: int, maxY: int): seq<Pos>
  {
    if |pairs| == 0 then []
    else PairsAntiNodesAsWritten(pairs[..|pairs| - 1], maxX, maxY)
         + GetAntiNodesAsWritten(pairs[|pairs| - 1].0, pairs[|pairs| - 1].1, maxX, maxY)
  }

  function GroupsAntiNodesAsWritten(groups: seq<Group>, maxX: int, maxY: int): seq<Pos>
  {
    if |groups| == 0 then []
    else GroupsAntiNodesAsWritten(groups[..|groups| - 1], maxX, maxY)
         + PairsAntiNodesAsWritten(GetAllPairs(groups[|groups| - 1].1), maxX, maxY)
  }

  /** getAllAntiNodes exactly as the source runs it. */
  function GetAllAntiNodesAsWritten(groups: seq<Group>, maxX: int, maxY: int): seq<Pos>
  {
    FilterUniqueCoordinates(GroupsAntiNodesAsWritten(groups, maxX, maxY))
  }

  /** Pairs of distinct in-box points: the two bounds collect the same list. */
  lemma {:induction false} PairsAsWrittenAgree(pairs: seq<(Pos, Pos)>, maxX: int, maxY: int)
    requires maxX >= 1 && maxY >= 1
    requires forall a, b :: (a, b) in pairs ==> a != b && InBox(a, maxX, maxY) && InBox(b, maxX, maxY)
    ensures PairsAntiNodesAsWritten(pairs, maxX, maxY) == PairsAntiNodes(pairs, maxX, maxY)
  {
    if |pairs| > 0 {
      var n := |pairs| - 1;
      assert forall a, b :: (a, b) in pairs[..n] ==> (a, b) in pairs;
      PairsAsWrittenAgree(pairs[..n], maxX, maxY);
      assert (pairs[n].0, pairs[n].1) in pairs;
      AsWrittenAgreesOnWideGrids(pairs[n].0, pairs[n].1, maxX, maxY);
    }
  }

  lemma {:induction false} GroupsAsWrittenAgree(groups: seq<Group>, maxX: int, maxY: int)
    requires maxX >= 1 && maxY >= 1
    requires forall i, a, b :: 0 <= i < |groups| && (a, b) in GetAllPairs(groups[i].1)
               ==> a != b && InBox(a, maxX, maxY) && InBox(b, maxX, maxY)
    ensures GroupsAntiNodesAsWritten(groups, maxX, maxY) == GroupsAntiNodes(groups, maxX, maxY)
  {
    if |groups| > 0 {
      var n := |groups| - 1;
      forall i, a, b | 0 <= i < n && (a, b) in GetAllPairs(groups[..n][i].1)
        ensures a != b && InBox(a, maxX, maxY) && InBox(b, maxX, maxY)
      {
        assert groups[..n][i] == groups[i];
      }
      GroupsAsWrittenAgree(groups[..n], maxX, maxY);
      PairsAsWrittenAgree(GetAllPairs(groups[n].1), maxX, maxY);
    }
  }

  /** On a grid at least two cells wide and two high the source's own
      getAllAntiNodes lists every in-grid antinode once and nothing else,
      the same list as the corrected bound. */
  lemma CountAsWrittenOnWideGrids(grid: Grid<char>)
    requires |grid| >= 2 && IsRect(grid) && |grid[0]| >= 2
    ensures var groups := GetIndexesOfAntennas(grid);
            var r := GetAllAntiNodesAsWritten(groups, |grid[0]| - 1, |grid| - 1);
            && r == GetAllAntiNodes(groups, |grid[0]| - 1, |grid| - 1)
            && NoDup(r)
            && forall p :: p in r <==> InGrid(grid, p.x, p.y) && Antinode(grid, p)
  {
    var groups := GetIndexesOfAntennas(grid);
    var maxX, maxY := |grid[0]| - 1, |grid| - 1;
    forall i, a, b | 0 <= i < |groups| && (a, b) in GetAllPairs(groups[i].1)
      ensures a != b && InBox(a, maxX, maxY) && InBox(b, maxX, maxY)
    {
      PairOfGroup(grid, groups, i, a, b);
    }
    GroupsAsWrittenAgree(groups, maxX, maxY);
    CountAntiNodesMeaning(grid);
  }

  /** The one-row grid `a.a..` as the source runs it: `(4, 0)` is an in-grid
      antinode of the two `a` antennas, yet getAllAntiNodes leaves it out. */
  lemma ThinGridCountAsWritten(grid: Grid<char>)
    requires grid == ["a.a.."]
    ensures InGrid(grid, 4, 0) && Antinode(grid, Pos(4, 0))
    ensures Pos(4, 0) !in GetAllAntiNodesAsWritten(GetIndexesOfAntennas(grid), |grid[0]| - 1, |grid| - 1)
  {
    var a, b, p := Pos(0, 0), Pos(2, 0), Pos(4, 0);
    ThinGridOnLine(a, b, p, 4, 0);
    ThinGroups(grid);
    var groups := [('a', [a, b])];
    assert GetAllPairs([a, b]) == [(a, b)];
    ThinGridAsWritten(a, b, p, 4, 0);
    assert [(a, b)][..0] == [] && groups[..0] == [];
    assert PairsAntiNodesAsWritten([(a, b)], 4, 0) == [] + GetAntiNodesAsWritten(a, b, 4, 0);
    assert GroupsAntiNodesAsWritten(groups, 4, 0) == [] + PairsAntiNodesAsWritten([(a, b)], 4, 0);
    assert Before(a, b) && grid[0][0] == 'a' == grid[0][2];
  }

  lemma ThinGroups(grid: Grid<char>)
    requires grid == ["a.a.."]
    ensures GetIndexesOfAntennas(grid) == [('a', [Pos(0, 0), Pos(2, 0)])]
  {
    var e := [(Pos(0, 0), 'a'), (Pos(1, 0), '.'), (Pos(2, 0), 'a'), (Pos(3, 0), '.'), (Pos(4, 0), '.')];
    ThinScan(grid, e);
    ThinGroupAll(e);
  }

  lemma ThinScan(grid: Grid<char>, e: seq<(Pos, char)>)
    requires grid == ["a.a.."]
    requires e == [(Pos(0, 0), 'a'), (Pos(1, 0), '.'), (Pos(2, 0), 'a'), (Pos(3, 0), '.'), (Pos(4, 0), '.')]
    ensures Scan(grid) == e
  {
    assert grid[..0] == [];
    assert RowScan(grid[0], 0) == e;
  }

  lemma ThinGroupAll(e: seq<(Pos, char)>)
    requires e == [(Pos(0, 0), 'a'), (Pos(1, 0), '.'), (Pos(2, 0), 'a'), (Pos(3, 0), '.'), (Pos(4, 0), '.')]
    ensures GroupAll(e) == [('a', [Pos(0, 0), Pos(2, 0)])]
  {
    assert e[..1][..0] == [];
    assert e[..2][..1] == e[..1] && e[..3][..2] == e[..2] && e[..4][..3] == e[..3] && e[..4] == e[..5][..4];
    assert GroupAll(e[..1]) == [('a', [Pos(0, 0)])];
    assert GroupAll(e[..2]) == [('a', [Pos(0, 0)])];
    var g1 := [('a', [Pos(0, 0)])];
    assert e[..3] == e[..2] + [e[2]] && e[2] == (Pos(2, 0), 'a');
    assert FindGroup(g1, 'a') == Some(0);
    assert AddAntenna(g1, e[2]) == g1[0 := ('a', [Pos(0, 0)] + [Pos(2, 0)])];
    assert [Pos(0, 0)] + [Pos(2, 0)] == [Pos(0, 0), Pos(2, 0)];
    assert g1[0 := ('a', [Pos(0, 0), Pos(2, 0)])] == [('a', [Pos(0, 0), Pos(2, 0)])];
    assert GroupAll(e[..3]) == [('a', [Pos(0, 0), Pos(2, 0)])];
    assert GroupAll(e[..4]) == [('a', [Pos(0, 0), Pos(2, 0)])];
  }
}
