/** Day 10, challenge 2: a hiking trail starts at a cell of height 0 and
    climbs one unit of height per orthogonal step until it reaches height 9;
    a trailhead's rating is the number of distinct trails that start there.
    The source counts them breadth-first, keeping duplicates in the frontier. */
module Trails {
  import opened Seqs
  import opened Grids

  /** The height a trail ends at. */
  const Summit: nat := 9

  /** A `TrailSpot`: a cell and the height read there. */
  datatype Spot = Spot(pos: Pos, elevation: nat)

  /** A topographic map as `createGrid` builds it: one digit per cell. */
  predicate IsMap(grid: Grid<nat>)
  {
    forall y, x :: 0 <= y < |grid| && 0 <= x < |grid[y]| ==> grid[y][x] <= Summit
  }

  predicate OnMap(grid: Grid<nat>, s: Spot)
  {
    InGrid(grid, s.pos.x, s.pos.y)
  }

  predicate AllOnMap(grid: Grid<nat>, spots: seq<Spot>)
  {
    forall i :: 0 <= i < |spots| ==> OnMap(grid, spots[i])
  }

  // ---------------------------------------------------------------------
  // Trails, defined directly

  /** One step of a trail: to an orthogonal neighbour on the map whose
      height is one more, the spot recording that height. */
  predicate StepUp(grid: Grid<nat>, a: Spot, b: Spot)
  {
    && Adjacent(a.pos, b.pos)
    && OnMap(grid, b)
    && b.elevation == a.elevation + 1
    && grid[b.pos.y][b.pos.x] == b.elevation
  }

  /** A walk on the map every step of which climbs by one. */
  predicate Climb(grid: Grid<nat>, w: seq<Spot>)
  {
    && |w| > 0
    && OnMap(grid, w[0])
    && forall i :: 0 < i < |w| ==> StepUp(grid, w[i - 1], w[i])
  }

  // ---------------------------------------------------------------------
  // findTrailHeads

  /** The row-major `reduce` keeping every cell whose height is 0. */
  function FindTrailHeads(grid: Grid<nat>): (heads: seq<Spot>)
    ensures forall i :: 0 <= i < |heads| ==> heads[i].elevation == 0
  {
    var ps := Positions(Scan(grid), 0);
    seq(|ps|, i requires 0 <= i < |ps| => Spot(ps[i], 0))
  }

  /** The heads are exactly the height-0 cells, each once, in row-major
      order. */
  lemma TrailHeadsMeaning(grid: Grid<nat>)
    ensures forall s :: s in FindTrailHeads(grid) <==> OnMap(grid, s) && s.elevation == 0 && grid[s.pos.y][s.pos.x] == 0
    ensures forall i, j :: 0 <= i < j < |FindTrailHeads(grid)| ==> Before(FindTrailHeads(grid)[i].pos, FindTrailHeads(grid)[j].pos)
  {
    var ps := Positions(Scan(grid), 0);
    var heads := FindTrailHeads(grid);
    forall s ensures s in heads <==> OnMap(grid, s) && s.elevation == 0 && grid[s.pos.y][s.pos.x] == 0
    {
      PositionsMeaning(Scan(grid), 0, s.pos);
      if s in heads {
        var i :| 0 <= i < |heads| && heads[i] == s;
        assert s.pos == ps[i];
      }
      if s.pos in ps && s.elevation == 0 {
        var i :| 0 <= i < |ps| && ps[i] == s.pos;
        assert heads[i] == s;
      }
    }
    PositionsOrdered(Scan(grid), 0);
  }

  // ---------------------------------------------------------------------
  // findNextSpots

  /** `number ? createTrailSpot(x, y, number) : null`, kept only when it is
      one higher than `e`: a read off the map is `undefined`, and a height
      of 0 is falsy as well (it is never one higher anyway). */
  function Neighbour(grid: Grid<nat>, x: int, y: int, e: nat): seq<Spot>
  {
    if InGrid(grid, x, y) && grid[y][x] != 0 && grid[y][x] == e + 1 then [Spot(Pos(x, y), grid[y][x])] else []
  }

  /** Left, right, up and down, in that order, filtered to one step higher. */
  function FindNextSpots(grid: Grid<nat>, s: Spot): seq<Spot>
  {
    var x, y, e := s.pos.x, s.pos.y, s.elevation;
    Neighbour(grid, x - 1, y, e) + Neighbour(grid, x + 1, y, e) + Neighbour(grid, x, y - 1, e) + Neighbour(grid, x, y + 1, e)
  }

  /** At most four next spots, all different, and exactly the spots one
      step up from `s`. */
  lemma NextSpotsMeaning(grid: Grid<nat>, s: Spot)
    ensures |FindNextSpots(grid, s)| <= 4
    ensures NoDup(FindNextSpots(grid, s))
    ensures forall t :: t in FindNextSpots(grid, s) <==> StepUp(grid, s, t)
  {
  }

  // ---------------------------------------------------------------------
  // investigateTrail: the breadth-first frontier

  /** findNextSpots on a given map, as a function value. */
  function Nexts(grid: Grid<nat>): Spot -> seq<Spot>
  {
    s => FindNextSpots(grid, s)
  }

  /** One round of the `for` loop: every spot's next spots, pushed in order. */
  function Expand(next: Spot -> seq<Spot>, spots: seq<Spot>): seq<Spot>
  {
    if |spots| == 0 then []
    else Expand(next, spots[..|spots| - 1]) + next(spots[|spots| - 1])
  }

  /** `f` applied `k` times. */
  function Iterate<T>(f: T -> T, x: T, k: nat): T
    decreases k
  {
    if k == 0 then x else Iterate(f, f(x), k - 1)
  }

  lemma {:induction false} IterateStep<T>(f: T -> T, x: T, k: nat)
    ensures Iterate(f, x, k + 1) == f(Iterate(f, x, k))
    decreases k
  {
    if k > 0 {
      IterateStep(f, f(x), k - 1);
    }
  }

  function Round(next: Spot -> seq<Spot>): seq<Spot> -> seq<Spot>
  {
    spots => Expand(next, spots)
  }

  /** The frontier after `k` rounds. */
  function Frontier(next: Spot -> seq<Spot>, spots: seq<Spot>, k: nat): seq<Spot>
  {
    Iterate(Round(next), spots, k)
  }

  /** Every spot of a round is one step up from a spot of the previous one. */
  lemma {:induction false} ExpandStepsUp(grid: Grid<nat>, spots: seq<Spot>, t: Spot)
    requires t in Expand(Nexts(grid), spots)
    ensures exists s :: s in spots && StepUp(grid, s, t)
  {
    var n := |spots| - 1;
    if t in Expand(Nexts(grid), spots[..n]) {
      ExpandStepsUp(grid, spots[..n], t);
      var s :| s in spots[..n] && StepUp(grid, s, t);
      assert s in spots;
    } else {
      NextSpotsMeaning(grid, spots[n]);
      assert StepUp(grid, spots[n], t);
    }
  }

  lemma ExpandOnMap(grid: Grid<nat>, spots: seq<Spot>)
    ensures AllOnMap(grid, Expand(Nexts(grid), spots))
  {
    var r := Expand(Nexts(grid), spots);
    forall i | 0 <= i < |r| ensures OnMap(grid, r[i]) {
      ExpandStepsUp(grid, spots, r[i]);
    }
  }

  /** Another round, taken after the first `k`. */
  lemma FrontierStep(next: Spot -> seq<Spot>, spots: seq<Spot>, k: nat)
    ensures Frontier(next, spots, k + 1) == Expand(next, Frontier(next, spots, k))
  {
    IterateStep(Round(next), spots, k);
  }

  /** The first round, then the others. */
  lemma FrontierFirst(next: Spot -> seq<Spot>, spots: seq<Spot>, k: nat)
    ensures Frontier(next, spots, k + 1) == Frontier(next, Expand(next, spots), k)
  {
    assert Round(next)(spots) == Expand(next, spots);
  }

  /** Once the frontier is empty it stays empty. */
  lemma {:induction false} FrontierEmptyStays(next: Spot -> seq<Spot>, spots: seq<Spot>, k: nat, m: nat)
    requires k <= m && Frontier(next, spots, k) == []
    ensures Frontier(next, spots, m) == []
    decreases m - k
  {
    if k < m {
      FrontierStep(next, spots, k);
      FrontierEmptyStays(next, spots, k + 1, m);
    }
  }

  /** After `k` rounds from spots of one height, every frontier spot is `k`
      higher. */
  lemma {:induction false} FrontierElevation(grid: Grid<nat>, spots: seq<Spot>, k: nat, e: nat)
    requires forall i :: 0 <= i < |spots| ==> spots[i].elevation == e
    ensures forall t :: t in Frontier(Nexts(grid), spots, k) ==> t.elevation == e + k
    decreases k
  {
    if k > 0 {
      var next := Expand(Nexts(grid), spots);
      forall i | 0 <= i < |next| ensures next[i].elevation == e + 1 {
        ExpandStepsUp(grid, spots, next[i]);
      }
      FrontierElevation(grid, next, k - 1, e + 1);
      FrontierFirst(Nexts(grid), spots, k - 1);
    }
  }

  // ---------------------------------------------------------------------
  // Trails enumerated depth-first

  /** `[s] + w` for every `w`. */
  function Prefixed(s: Spot, ws: seq<seq<Spot>>): (r: seq<seq<Spot>>)
    ensures |r| == |ws|
    ensures forall i :: 0 <= i < |ws| ==> r[i] == [s] + ws[i]
  {
    seq(|ws|, i requires 0 <= i < |ws| => [s] + ws[i])
  }

  /** The trails of `k` steps from `s`, grouped by first step in the order
      left, right, up, down. */
  function Trails(next: Spot -> seq<Spot>, s: Spot, k: nat): (r: seq<seq<Spot>>)
    ensures forall i :: 0 <= i < |r| ==> |r[i]| == k + 1
    decreases k, 0, 0
  {
    if k == 0 then [[s]] else Prefixed(s, TrailsFrom(next, next(s), k - 1))
  }

  /** The trails of `k` steps from each of `spots` in turn. */
  function TrailsFrom(next: Spot -> seq<Spot>, spots: seq<Spot>, k: nat): (r: seq<seq<Spot>>)
    ensures forall i :: 0 <= i < |r| ==> |r[i]| == k + 1
    decreases k, 1, |spots|
  {
    if |spots| == 0 then []
    else TrailsFrom(next, spots[..|spots| - 1], k) + Trails(next, spots[|spots| - 1], k)
  }

  /** The last spot of every walk. */
  function Ends(ws: seq<seq<Spot>>): (r: seq<Spot>)
    requires forall i :: 0 <= i < |ws| ==> |ws[i]| > 0
    ensures |r| == |ws|
  {
    seq(|ws|, i requires 0 <= i < |ws| => ws[i][|ws[i]| - 1])
  }

  lemma {:induction false} TrailsFromAppend(next: Spot -> seq<Spot>, a: seq<Spot>, b: seq<Spot>, k: nat)
    ensures TrailsFrom(next, a + b, k) == TrailsFrom(next, a, k) + TrailsFrom(next, b, k)
    decreases |b|
  {
    if |b| > 0 {
      var n := |b| - 1;
      var ab := a + b;
      assert ab[..|ab| - 1] == a + b[..n];
      assert ab[|ab| - 1] == b[n];
      calc {
        TrailsFrom(next, ab, k);
        TrailsFrom(next, ab[..|ab| - 1], k) + Trails(next, ab[|ab| - 1], k);
        TrailsFrom(next, a + b[..n], k) + Trails(next, b[n], k);
        { TrailsFromAppend(next, a, b[..n], k); }
        TrailsFrom(next, a, k) + TrailsFrom(next, b[..n], k) + Trails(next, b[n], k);
        TrailsFrom(next, a, k) + TrailsFrom(next, b, k);
      }
    } else {
      assert a + b == a;
    }
  }

  lemma EndsAppend(a: seq<seq<Spot>>, b: seq<seq<Spot>>)
    requires forall i :: 0 <= i < |a| ==> |a[i]| > 0
    requires forall i :: 0 <= i < |b| ==> |b[i]| > 0
    ensures Ends(a + b) == Ends(a) + Ends(b)
  {
  }

  lemma EndsPrefixed(s: Spot, ws: seq<seq<Spot>>)
    requires forall i :: 0 <= i < |ws| ==> |ws[i]| > 0
    ensures Ends(Prefixed(s, ws)) == Ends(ws)
  {
  }

  /** Zero-step trails end where they start. */
  lemma {:induction false} EndsOfNoSteps(next: Spot -> seq<Spot>, spots: seq<Spot>)
    ensures Ends(TrailsFrom(next, spots, 0)) == spots
  {
    if |spots| > 0 {
      var n := |spots| - 1;
      EndsOfNoSteps(next, spots[..n]);
      EndsAppend(TrailsFrom(next, spots[..n], 0), [[spots[n]]]);
      assert spots == spots[..n] + [spots[n]];
    }
  }

  lemma FrontierIsEndsZero(next: Spot -> seq<Spot>, spots: seq<Spot>)
    ensures Frontier(next, spots, 0) == Ends(TrailsFrom(next, spots, 0))
  {
    EndsOfNoSteps(next, spots);
  }

  /** Taking one step first and `k` steps after ends where taking `k + 1`
      steps does, in the same order. */
  lemma {:induction false} EndsOfExpand(next: Spot -> seq<Spot>, spots: seq<Spot>, k: nat)
    ensures Ends(TrailsFrom(next, spots, k + 1)) == Ends(TrailsFrom(next, Expand(next, spots), k))
  {
    if |spots| > 0 {
      var n := |spots| - 1;
      var p, s := spots[..n], spots[n];
      var nexts := next(s);
      EndsOfExpand(next, p, k);
      EndsAppend(TrailsFrom(next, p, k + 1), Trails(next, s, k + 1));
      EndsPrefixed(s, TrailsFrom(next, nexts, k));
      TrailsFromAppend(next, Expand(next, p), nexts, k);
      EndsAppend(TrailsFrom(next, Expand(next, p), k), TrailsFrom(next, nexts, k));
    }
  }

  /** The breadth-first frontier lists the ends of the depth-first trails,
      duplicates and order included. */
  lemma {:induction false} FrontierIsEnds(next: Spot -> seq<Spot>, spots: seq<Spot>, k: nat)
    ensures Frontier(next, spots, k) == Ends(TrailsFrom(next, spots, k))
    decreases k
  {
    if k == 0 {
      FrontierIsEndsZero(next, spots);
    } else {
      calc {
        Frontier(next, spots, k);
        { FrontierFirst(next, spots, k - 1); }
        Frontier(next, Expand(next, spots), k - 1);
        { FrontierIsEnds(next, Expand(next, spots), k - 1); }
        Ends(TrailsFrom(next, Expand(next, spots), k - 1));
        { EndsOfExpand(next, spots, k - 1); }
        Ends(TrailsFrom(next, spots, k));
      }
    }
  }

  /** From one spot, the frontier after `k` rounds has one entry per trail
      of `k` steps. */
  lemma FrontierCountsTrails(next: Spot -> seq<Spot>, s: Spot, k: nat)
    ensures |Frontier(next, [s], k)| == |Trails(next, s, k)|
  {
    FrontierIsEnds(next, [s], k);
    assert [s][..0] == [];
  }

  /** A climb from `s` is `s` followed by a climb from one of its next spots. */
  lemma ClimbCons(grid: Grid<nat>, s: Spot, v: seq<Spot>)
    requires |v| > 0
    ensures Climb(grid, [s] + v) <==> OnMap(grid, s) && StepUp(grid, s, v[0]) && Climb(grid, v)
  {
    var w := [s] + v;
    if Climb(grid, w) {
      forall i | 0 < i < |v| ensures StepUp(grid, v[i - 1], v[i]) {
        assert w[i] == v[i - 1] && w[i + 1] == v[i];
      }
      assert StepUp(grid, w[0], w[1]);
    }
    if OnMap(grid, s) && StepUp(grid, s, v[0]) && Climb(grid, v) {
      forall i | 0 < i < |w| ensures StepUp(grid, w[i - 1], w[i]) {
        if i > 1 {
          assert w[i - 1] == v[i - 2] && w[i] == v[i - 1];
        }
      }
    }
  }

  /** The enumerated trails are exactly the climbs of `k` steps from `s`. */
  lemma {:induction false} TrailsMeaning(grid: Grid<nat>, s: Spot, k: nat, w: seq<Spot>)
    requires OnMap(grid, s)
    ensures w in Trails(Nexts(grid), s, k) <==> |w| == k + 1 && w[0] == s && Climb(grid, w)
    decreases k, 0, 1
  {
    if k == 0 {
      assert Trails(Nexts(grid), s, 0) == [[s]];
      assert Climb(grid, [s]);
      if |w| == 1 && w[0] == s {
        assert w == [s];
      }
    } else {
      if w in Trails(Nexts(grid), s, k) {
        TrailsSound(grid, s, k, w);
      }
      if |w| == k + 1 && w[0] == s && Climb(grid, w) {
        TrailsComplete(grid, s, k, w);
      }
    }
  }

  lemma {:induction false} TrailsSound(grid: Grid<nat>, s: Spot, k: nat, w: seq<Spot>)
    requires OnMap(grid, s) && k > 0 && w in Trails(Nexts(grid), s, k)
    ensures |w| == k + 1 && w[0] == s && Climb(grid, w)
    decreases k, 0, 0
  {
    var nexts := FindNextSpots(grid, s);
    var tail := TrailsFrom(Nexts(grid), nexts, k - 1);
    var r := Trails(Nexts(grid), s, k);
    assert r == Prefixed(s, tail);
    NextsOnMap(grid, s);
    var i :| 0 <= i < |r| && r[i] == w;
    assert w == [s] + tail[i] && tail[i] in tail;
    var v := tail[i];
    TrailsFromMeaning(grid, nexts, k - 1, v);
    NextSpotsMeaning(grid, s);
    assert |v| == k && v[0] in nexts && Climb(grid, v);
    ClimbCons(grid, s, v);
  }

  lemma {:induction false} TrailsComplete(grid: Grid<nat>, s: Spot, k: nat, w: seq<Spot>)
    requires OnMap(grid, s) && k > 0
    requires |w| == k + 1 && w[0] == s && Climb(grid, w)
    ensures w in Trails(Nexts(grid), s, k)
    decreases k, 0, 0
  {
    var nexts := FindNextSpots(grid, s);
    var tail := TrailsFrom(Nexts(grid), nexts, k - 1);
    var r := Trails(Nexts(grid), s, k);
    assert r == Prefixed(s, tail);
    NextsOnMap(grid, s);
    var v := w[1..];
    assert w == [s] + v && |v| == k;
    ClimbCons(grid, s, v);
    assert StepUp(grid, s, v[0]) && Climb(grid, v);
    NextSpotsMeaning(grid, s);
    assert v[0] in nexts;
    TrailsFromMeaning(grid, nexts, k - 1, v);
    assert v in tail;
    var i :| 0 <= i < |tail| && tail[i] == v;
    assert r[i] == w;
  }

  lemma NextsOnMap(grid: Grid<nat>, s: Spot)
    ensures AllOnMap(grid, FindNextSpots(grid, s))
  {
    var nexts := FindNextSpots(grid, s);
    NextSpotsMeaning(grid, s);
    forall i | 0 <= i < |nexts| ensures OnMap(grid, nexts[i]) {
      assert StepUp(grid, s, nexts[i]);
    }
  }

  /** The trails from a list of spots are the climbs of `k` steps starting at
      one of them. */
  lemma {:induction false} TrailsFromMeaning(grid: Grid<nat>, spots: seq<Spot>, k: nat, w: seq<Spot>)
    requires AllOnMap(grid, spots)
    ensures w in TrailsFrom(Nexts(grid), spots, k) <==> |w| == k + 1 && w[0] in spots && Climb(grid, w)
    decreases k, 1, |spots|
  {
    if |spots| > 0 {
      var n := |spots| - 1;
      TrailsFromMeaning(grid, spots[..n], k, w);
      TrailsMeaning(grid, spots[n], k, w);
      assert spots == spots[..n] + [spots[n]];
    }
  }

  /** No trail is listed twice. */
  lemma {:induction false} TrailsDistinct(grid: Grid<nat>, s: Spot, k: nat)
    requires OnMap(grid, s)
    ensures NoDup(Trails(Nexts(grid), s, k))
    decreases k, 0, 0
  {
    if k > 0 {
      var nexts := FindNextSpots(grid, s);
      assert AllOnMap(grid, nexts) by {
        forall i | 0 <= i < |nexts| ensures OnMap(grid, nexts[i]) {
          assert nexts[i] in nexts;
        }
      }
      TrailsFromDistinct(grid, nexts, k - 1);
      var ws := TrailsFrom(Nexts(grid), nexts, k - 1);
      var r := Trails(Nexts(grid), s, k);
      forall i, j | 0 <= i < j < |r| ensures r[i] != r[j] {
        assert r[i][1..] == ws[i] && r[j][1..] == ws[j];
      }
    }
  }

  lemma {:induction false} TrailsFromDistinct(grid: Grid<nat>, spots: seq<Spot>, k: nat)
    requires AllOnMap(grid, spots) && NoDup(spots)
    ensures NoDup(TrailsFrom(Nexts(grid), spots, k))
    decreases k, 1, |spots|
  {
    if |spots| > 0 {
      var n := |spots| - 1;
      var a, b := TrailsFrom(Nexts(grid), spots[..n], k), Trails(Nexts(grid), spots[n], k);
      TrailsFromDistinct(grid, spots[..n], k);
      TrailsDistinct(grid, spots[n], k);
      forall i, j | 0 <= i < |a| && 0 <= j < |b| ensures a[i] != b[j] {
        TrailsFromMeaning(grid, spots[..n], k, a[i]);
        TrailsMeaning(grid, spots[n], k, b[j]);
        assert a[i] in a && b[j] in b;
        assert spots[n] !in spots[..n];
      }
      NoDupAppend(a, b);
    }
  }

  // ---------------------------------------------------------------------
  // investigateTrail

  /** `spotsToCheck.some((v) => v.elevation === 9)`. */
  predicate HasSummit(spots: seq<Spot>)
  {
    exists i :: 0 <= i < |spots| && spots[i].elevation == Summit
  }

  /** The rating of a trailhead: the number of distinct trails from it up to
      height 9. */
  function TrailRating(grid: Grid<nat>, head: Spot): nat
  {
    if head.elevation <= Summit then |Trails(Nexts(grid), head, Summit - head.elevation)| else 0
  }

  /** The inner `for` loop: one round of the frontier. */
  method NextRound(grid: Grid<nat>, spots: seq<Spot>) returns (next: seq<Spot>)
    ensures next == Expand(Nexts(grid), spots)
  {
    next := [];
    var i := 0;
    while i < |spots|
      invariant 0 <= i <= |spots|
      invariant next == Expand(Nexts(grid), spots[..i])
    {
      assert spots[..i + 1][..i] == spots[..i];
      next := next + FindNextSpots(grid, spots[i]);
      i := i + 1;
    }
    assert spots[..i] == spots;
  }

  /** Every spot of `spots` is at height `h`. */
  predicate Level(spots: seq<Spot>, h: nat)
  {
    forall t :: t in spots ==> t.elevation == h
  }

  /** A round from height `h` reaches height `h + 1`, which on a map exists
      only up to 9. */
  lemma RoundLevel(grid: Grid<nat>, spots: seq<Spot>, h: nat)
    requires IsMap(grid) && Level(spots, h)
    ensures AllOnMap(grid, Expand(Nexts(grid), spots))
    ensures Level(Expand(Nexts(grid), spots), h + 1)
    ensures |Expand(Nexts(grid), spots)| > 0 ==> h + 1 <= Summit
  {
    var next := Expand(Nexts(grid), spots);
    ExpandOnMap(grid, spots);
    forall t | t in next ensures t.elevation == h + 1 && t.elevation <= Summit {
      ExpandStepsUp(grid, spots, t);
    }
    if |next| > 0 {
      assert next[0] in next;
    }
  }

  /** A frontier that empties before height 9 leaves the head without a
      trail. */
  lemma EmptyFrontierRating(grid: Grid<nat>, head: Spot, k: nat)
    requires Frontier(Nexts(grid), [head], k) == []
    requires head.elevation > Summit || head.elevation + k <= Summit
    ensures TrailRating(grid, head) == 0
  {
    if head.elevation <= Summit {
      FrontierEmptyStays(Nexts(grid), [head], k, Summit - head.elevation);
      FrontierCountsTrails(Nexts(grid), head, Summit - head.elevation);
    }
  }

  /** A frontier at height 9 counts the head's trails. */
  lemma SummitFrontierRating(grid: Grid<nat>, head: Spot, k: nat)
    requires head.elevation + k == Summit
    ensures |Frontier(Nexts(grid), [head], k)| == TrailRating(grid, head)
  {
    FrontierCountsTrails(Nexts(grid), head, k);
  }

  /** One round of the `while` loop, taken from the frontier after `k`
      rounds from `head`. */
  method NextFrontier(grid: Grid<nat>, head: Spot, spots: seq<Spot>, k: nat) returns (next: seq<Spot>)
    requires IsMap(grid) && spots == Frontier(Nexts(grid), [head], k) && Level(spots, head.elevation + k)
    ensures next == Frontier(Nexts(grid), [head], k + 1)
    ensures AllOnMap(grid, next) && Level(next, head.elevation + k + 1)
    ensures |next| > 0 ==> head.elevation + k + 1 <= Summit
  {
    next := NextRound(grid, spots);
    FrontierStep(Nexts(grid), [head], k);
    RoundLevel(grid, spots, head.elevation + k);
  }

  /** investigateTrail as written: when a round finds no next spot the loop
      `break`s, returning the size of the last non-empty frontier, so the
      result is at least 1 even for a head none of whose trails reaches 9. */
  method InvestigateTrail(head: Spot, grid: Grid<nat>) returns (n: nat)
    requires OnMap(grid, head) && IsMap(grid)
    ensures n >= 1
    ensures exists k: nat :: k <= Summit && n == |Frontier(Nexts(grid), [head], k)|
    ensures TrailRating(grid, head) > 0 ==> n == TrailRating(grid, head)
  {
    var spots := [head];
    var k: nat := 0;
    var e := head.elevation;
    while |spots| > 0 && !HasSummit(spots)
      invariant spots == Frontier(Nexts(grid), [head], k)
      invariant AllOnMap(grid, spots) && |spots| > 0
      invariant Level(spots, e + k)
      invariant k == 0 || e + k <= Summit
      decreases Summit + 1 - k
    {
      var next := NextFrontier(grid, head, spots, k);
      assert spots[0] in spots;
      if |next| == 0 {
        EmptyFrontierRating(grid, head, k + 1);
        break;
      }
      spots, k := next, k + 1;
    }
    n := |spots|;
    if HasSummit(spots) {
      var i :| 0 <= i < |spots| && spots[i].elevation == Summit;
      assert spots[i] in spots;
      SummitFrontierRating(grid, head, k);
    }
  }

  /** investigateTrail without the `break`: the loop also stops on an empty
      frontier, and the result is the head's rating. */
  method RateTrail(head: Spot, grid: Grid<nat>) returns (n: nat)
    requires OnMap(grid, head) && IsMap(grid)
    ensures n == TrailRating(grid, head)
  {
    var spots := [head];
    var k: nat := 0;
    var e := head.elevation;
    while |spots| > 0 && !HasSummit(spots)
      invariant spots == Frontier(Nexts(grid), [head], k)
      invariant AllOnMap(grid, spots)
      invariant Level(spots, e + k)
      invariant |spots| > 0 ==> k == 0 || e + k <= Summit
      invariant |spots| == 0 ==> e > Summit || e + k <= Summit
      invariant k <= Summit + 1
      decreases Summit + 1 - k
    {
      var next := NextFrontier(grid, head, spots, k);
      assert spots[0] in spots;
      spots, k := next, k + 1;
    }
    n := |spots|;
    if |spots| == 0 {
      EmptyFrontierRating(grid, head, k);
    } else {
      var i :| 0 <= i < |spots| && spots[i].elevation == Summit;
      assert spots[i] in spots;
      SummitFrontierRating(grid, head, k);
    }
  }

  /** On the one-cell map `0` the head has no trail, so its rating is 0,
      while every frontier size investigateTrail as written may return (at
      least 1, by its contract) is 1. */
  lemma DeadEndRating(grid: Grid<nat>, head: Spot)
    requires grid == [[0]] && head == Spot(Pos(0, 0), 0)
    ensures Frontier(Nexts(grid), [head], 1) == []
    ensures TrailRating(grid, head) == 0
    ensures forall k: nat :: k <= Summit ==> |Frontier(Nexts(grid), [head], k)| == (if k == 0 then 1 else 0)
    ensures forall k: nat :: k <= Summit && |Frontier(Nexts(grid), [head], k)| >= 1 ==> |Frontier(Nexts(grid), [head], k)| == 1
  {
    assert FindNextSpots(grid, head) == [];
    assert Expand(Nexts(grid), [head]) == [];
    forall k: nat | 1 <= k <= Summit
      ensures Frontier(Nexts(grid), [head], k) == []
    {
      FrontierEmptyStays(Nexts(grid), [head], 1, k);
    }
    FrontierCountsTrails(Nexts(grid), head, Summit);
  }
}
