/** Day 12: a garden of plots, each labelled with its plant. A region is a
    4-connected group of plots of one plant. Challenge 1 prices a region at
    its area times its perimeter, challenge 2 at its area times its number of
    straight sides; the answer is the sum over all regions. */
module Garden {
  import opened Options
  import opened Seqs
  import opened Grids
  import opened FloodFill

  type Plots = Grid<char>

  datatype Side = Top | Bottom | Left | Right

  /** The plot across `side` of `p`. */
  function Toward(p: Pos, side: Side): Pos
  {
    match side
    case Top => Pos(p.x, p.y - 1)
    case Bottom => Pos(p.x, p.y + 1)
    case Left => Pos(p.x - 1, p.y)
    case Right => Pos(p.x + 1, p.y)
  }

  /** `q` holds the plant of the plot `p`; a position off the grid holds none
      (the source reads `undefined` there, which equals no label). */
  predicate SamePlant(grid: Plots, p: Pos, q: Pos)
  {
    InGrid(grid, p.x, p.y) && At(grid, q.x, q.y) == Some(grid[p.y][p.x])
  }

  // ---------------------------------------------------------------------
  // Stepping between plots (traverseCell's neighbour checks)

  function Step(grid: Plots, p: Pos, side: Side): seq<Pos>
  {
    if SamePlant(grid, p, Toward(p, side)) then [Toward(p, side)] else []
  }

  /** The plots traverseCell may step to from `p`, in the order it tries
      them: top, bottom, left, right. */
  function Neighbours(grid: Plots, p: Pos): seq<Pos>
  {
    Step(grid, p, Top) + Step(grid, p, Bottom) + Step(grid, p, Left) + Step(grid, p, Right)
  }

  function Links(grid: Plots): Pos -> seq<Pos>
  {
    p => Neighbours(grid, p)
  }

  /** traverseCell steps to exactly the adjacent plots of the same plant. */
  lemma NeighboursMeaning(grid: Plots, p: Pos, q: Pos)
    ensures q in Neighbours(grid, p) <==> Adjacent(p, q) && SamePlant(grid, p, q)
  {
    assert Adjacent(p, q) <==> q in [Toward(p, Top), Toward(p, Bottom), Toward(p, Left), Toward(p, Right)];
  }

  /** A step never leaves the grid. */
  lemma LinksClosed(grid: Plots)
    ensures Closed(Links(grid), Cells(grid))
  {
    forall p, q | p in Cells(grid) && q in Links(grid)(p) ensures q in Cells(grid) {
      NeighboursMeaning(grid, p, q);
    }
  }

  /** Steps go both ways. */
  lemma LinksSymmetric(grid: Plots)
    ensures Symmetric(Links(grid), Cells(grid))
  {
    forall p, q | p in Cells(grid) && q in Links(grid)(p) ensures p in Links(grid)(q) {
      NeighboursMeaning(grid, p, q);
      NeighboursMeaning(grid, q, p);
    }
  }

  // ---------------------------------------------------------------------
  // Challenge 1: perimeter

  /** A fence runs along `side` of `p` when the plot across is off the grid
      or holds another plant. */
  predicate HasFence(grid: Plots, p: Pos, side: Side)
  {
    !SamePlant(grid, p, Toward(p, side))
  }

  function Fee(grid: Plots, p: Pos, side: Side): nat
  {
    if HasFence(grid, p, side) then 1 else 0
  }

  /** calculatePerimeterCost: one unit per fenced side. */
  function PerimeterCost(grid: Plots, p: Pos): nat
    requires InGrid(grid, p.x, p.y)
  {
    Fee(grid, p, Top) + Fee(grid, p, Bottom) + Fee(grid, p, Left) + Fee(grid, p, Right)
  }

  /** The perimeter cost is at most 4: it is 4 less the number of plots the
      walk may step to. */
  lemma PerimeterCostMeaning(grid: Plots, p: Pos)
    requires InGrid(grid, p.x, p.y)
    ensures PerimeterCost(grid, p) == 4 - |Neighbours(grid, p)|
    ensures PerimeterCost(grid, p) <= 4
  {
  }

  /** The per-plot cost challenge 1 accumulates. */
  function PerimeterOf(grid: Plots): Pos -> nat
  {
    (p: Pos) => if InGrid(grid, p.x, p.y) then PerimeterCost(grid, p) else 0
  }

  // ---------------------------------------------------------------------
  // Challenge 2: fences and sides

  datatype Fences = Fences(top: bool, bottom: bool, left: bool, right: bool)

  /** getFences: each flag is set exactly when the walk cannot step across
      that side. */
  function GetFences(grid: Plots, p: Pos): (f: Fences)
    requires InGrid(grid, p.x, p.y)
    ensures f.top <==> Toward(p, Top) !in Neighbours(grid, p)
    ensures f.bottom <==> Toward(p, Bottom) !in Neighbours(grid, p)
    ensures f.left <==> Toward(p, Left) !in Neighbours(grid, p)
    ensures f.right <==> Toward(p, Right) !in Neighbours(grid, p)
  {
    Fences(HasFence(grid, p, Top), HasFence(grid, p, Bottom), HasFence(grid, p, Left), HasFence(grid, p, Right))
  }

  function Flags(f: Fences): nat
  {
    (if f.top then 1 else 0) + (if f.bottom then 1 else 0) + (if f.left then 1 else 0) + (if f.right then 1 else 0)
  }

  /** The two challenges see the same fences: the flags of getFences number
      the perimeter cost. */
  lemma FlagsArePerimeter(grid: Plots, p: Pos)
    requires InGrid(grid, p.x, p.y)
    ensures Flags(GetFences(grid, p)) == PerimeterCost(grid, p)
  {
  }

  /** The plot checked to decide whether a fence on `side` continues a side
      already counted: left of a top fence, right of a bottom fence, above a
      left fence, below a right fence. */
  function Along(p: Pos, side: Side): Pos
  {
    match side
    case Top => Pos(p.x - 1, p.y)
    case Bottom => Pos(p.x + 1, p.y)
    case Left => Pos(p.x, p.y - 1)
    case Right => Pos(p.x, p.y + 1)
  }

  /** A fence on `side` of `p` starts a new side unless the plot along it is
      the same plant and fenced on the same side. */
  predicate StartsSide(grid: Plots, p: Pos, side: Side)
  {
    HasFence(grid, p, side) &&
    !(SamePlant(grid, p, Along(p, side)) && HasFence(grid, Along(p, side), side))
  }

  function Start(grid: Plots, p: Pos, side: Side): nat
  {
    if StartsSide(grid, p, side) then 1 else 0
  }

  /** The four checks the side-counting loop makes for one plot. */
  function SideStarts(grid: Plots, p: Pos): nat
    requires InGrid(grid, p.x, p.y)
  {
    Start(grid, p, Top) + Start(grid, p, Bottom) + Start(grid, p, Left) + Start(grid, p, Right)
  }

  /** A plot starts at most as many sides as it has fences. */
  lemma SideStartsAtMostFences(grid: Plots, p: Pos)
    requires InGrid(grid, p.x, p.y)
    ensures SideStarts(grid, p) <= Flags(GetFences(grid, p))
  {
  }

  /** The per-plot cost challenge 2 sums over a region. */
  function SidesOf(grid: Plots): Pos -> nat
  {
    (p: Pos) => if InGrid(grid, p.x, p.y) then SideStarts(grid, p) else 0
  }

  // ---------------------------------------------------------------------
  // getTotalPrice

  /** The `for ... of` over rows, then cells: every plot in row-major order. */
  function Order(grid: Plots): (o: seq<Pos>)
    ensures forall i, j :: 0 <= i < j < |o| ==> Before(o[i], o[j])
  {
    var entries := Scan(grid);
    seq(|entries|, i requires 0 <= i < |entries| => entries[i].0)
  }

  /** Every plot is in the order, and nothing else is. */
  lemma OrderMeaning(grid: Plots)
    ensures forall q :: q in Order(grid) <==> q in Cells(grid)
  {
    var entries := Scan(grid);
    forall q | q in Cells(grid) ensures q in Order(grid) {
      var e := (q, grid[q.y][q.x]);
      assert e in entries;
      var i :| 0 <= i < |entries| && entries[i] == e;
      assert Order(grid)[i] == q;
    }
    forall q | q in Order(grid) ensures q in Cells(grid) {
      var i :| 0 <= i < |Order(grid)| && Order(grid)[i] == q;
      assert entries[i] in entries;
    }
  }

  /** The regions getTotalPrice walks, each with its accumulated `cost`. */
  function Regions(grid: Plots, cost: Pos -> nat): seq<Tour<Pos>>
  {
    LinksClosed(grid);
    OrderMeaning(grid);
    Survey(Links(grid), Cells(grid), cost, Order(grid), {})
  }

  /** Challenge 1's getTotalPrice. */
  function PerimeterPrice(grid: Plots): nat
  {
    TotalPrice(Regions(grid, PerimeterOf(grid)))
  }

  /** Challenge 2's getTotalPrice. */
  function SidePrice(grid: Plots): nat
  {
    TotalPrice(Regions(grid, SidesOf(grid)))
  }

  /** Every plot is priced in exactly one region, and the areas add up to
      the number of plots. */
  lemma RegionsPartition(grid: Plots, cost: Pos -> nat)
    ensures var rs := Regions(grid, cost);
            && (forall i, j :: 0 <= i < j < |rs| ==> Region(rs[i]) !! Region(rs[j]))
            && Covered(rs) == Cells(grid)
            && Area(rs) == |Cells(grid)|
  {
    LinksClosed(grid);
    LinksSymmetric(grid);
    OrderMeaning(grid);
    SurveyCoversAll(Links(grid), Cells(grid), cost, Order(grid));
  }

  /** Each region is everything reachable from its first plot and nothing
      more: it holds every plot a step leads to from it, and it lies inside
      every such set that holds its first plot. */
  lemma RegionsAreComponents(grid: Plots, cost: Pos -> nat)
    ensures var rs := Regions(grid, cost);
            forall i :: 0 <= i < |rs| ==>
              |rs[i].visited| >= 1 && rs[i].visited[0] in Cells(grid) &&
              Closed(Links(grid), Region(rs[i])) &&
              (forall s :: rs[i].visited[0] in s && Closed(Links(grid), s) ==> Region(rs[i]) <= s)
  {
    var links, cells, order := Links(grid), Cells(grid), Order(grid);
    LinksClosed(grid);
    OrderMeaning(grid);
    var rs := Survey(links, cells, cost, order, {});
    assert rs == Regions(grid, cost);
    SurveyStarts(links, cells, cost, order, {});
    forall i | 0 <= i < |rs|
      ensures Closed(links, Region(rs[i]))
      ensures forall s :: rs[i].visited[0] in s && Closed(links, s) ==> Region(rs[i]) <= s
    {
      assert OwnWalk(links, cells, cost, rs[i]);
      var p := rs[i].visited[0];
      RegionClosed(links, cells, cost, p);
      forall s | p in s && Closed(links, s) ensures Region(rs[i]) <= s {
        RegionLeast(links, cells, cost, p, s);
      }
    }
  }

  /** traverseCell's price is the summed cost of the region's plots. */
  lemma RegionPrices(grid: Plots, cost: Pos -> nat)
    ensures var rs := Regions(grid, cost);
            forall i :: 0 <= i < |rs| ==> |rs[i].visited| >= 1 && rs[i].price == CostOf(cost, rs[i].visited)
  {
    LinksClosed(grid);
    OrderMeaning(grid);
    SurveyPrices(Links(grid), Cells(grid), cost, Order(grid), {});
    SurveyStarts(Links(grid), Cells(grid), cost, Order(grid), {});
    var rs := Regions(grid, cost);
    forall i | 0 <= i < |rs| ensures |rs[i].visited| >= 1 {
      assert OwnWalk(Links(grid), Cells(grid), cost, rs[i]);
    }
  }

  /** On a rectangular garden the areas add up to width times height. */
  lemma RectangleArea(grid: Plots, cost: Pos -> nat)
    requires IsRect(grid)
    ensures Area(Regions(grid, cost)) == Width(grid) * |grid|
  {
    RegionsPartition(grid, cost);
    CellsCount(grid);
  }

  /** Both challenges walk the same regions, in the same order. */
  lemma SameRegions(grid: Plots)
    ensures |Regions(grid, PerimeterOf(grid))| == |Regions(grid, SidesOf(grid))|
    ensures forall i :: 0 <= i < |Regions(grid, PerimeterOf(grid))| ==>
              Regions(grid, PerimeterOf(grid))[i].visited == Regions(grid, SidesOf(grid))[i].visited
  {
    LinksClosed(grid);
    OrderMeaning(grid);
    SurveyIgnoresCost(Links(grid), Cells(grid), PerimeterOf(grid), SidesOf(grid), Order(grid), {});
  }

  /** A region has at most as many sides as fences, so the bulk discount
      never raises the price. */
  lemma SidesAtMostPerimeter(grid: Plots)
    ensures var full, bulk := Regions(grid, PerimeterOf(grid)), Regions(grid, SidesOf(grid));
            |full| == |bulk| &&
            forall i :: 0 <= i < |full| ==> bulk[i].price <= full[i].price
    ensures SidePrice(grid) <= PerimeterPrice(grid)
  {
    var full, bulk := Regions(grid, PerimeterOf(grid)), Regions(grid, SidesOf(grid));
    SameRegions(grid);
    RegionPrices(grid, PerimeterOf(grid));
    RegionPrices(grid, SidesOf(grid));
    forall i | 0 <= i < |full| ensures bulk[i].price <= full[i].price {
      forall q | q in full[i].visited ensures SidesOf(grid)(q) <= PerimeterOf(grid)(q) {
        if InGrid(grid, q.x, q.y) {
          SideStartsAtMostFences(grid, q);
        }
      }
      CostOfMono(SidesOf(grid), PerimeterOf(grid), full[i].visited);
    }
    TotalPriceMono(bulk, full);
  }

  // ---------------------------------------------------------------------
  // A garden of one plant

  /** A rectangle of at least one plot, all of one plant. */
  predicate OnePlant(grid: Plots)
  {
    |grid| >= 1 && IsRect(grid) && Width(grid) >= 1 &&
    forall y, x :: 0 <= y < |grid| && 0 <= x < |grid[y]| ==> grid[y][x] == grid[0][0]
  }

  lemma OnePlantSame(grid: Plots, p: Pos, q: Pos)
    requires OnePlant(grid) && InGrid(grid, p.x, p.y)
    ensures SamePlant(grid, p, q) <==> 0 <= q.y < |grid| && 0 <= q.x < Width(grid)
  {
  }

  /** A closed set of plots holding one plot of a one-plant garden holds the
      first plot of its row, then the first plot of the first row, then
      everything. */
  lemma {:induction false} ReachRowStart(grid: Plots, r: set<Pos>, x: nat, y: nat)
    requires OnePlant(grid) && Closed(Links(grid), r)
    requires y < |grid| && x < Width(grid) && Pos(x, y) in r
    ensures Pos(0, y) in r
  {
    if x > 0 {
      OnePlantSame(grid, Pos(x, y), Pos(x - 1, y));
      NeighboursMeaning(grid, Pos(x, y), Pos(x - 1, y));
      ReachRowStart(grid, r, x - 1, y);
    }
  }

  lemma {:induction false} ReachCorner(grid: Plots, r: set<Pos>, y: nat)
    requires OnePlant(grid) && Closed(Links(grid), r)
    requires y < |grid| && Pos(0, y) in r
    ensures Pos(0, 0) in r
  {
    if y > 0 {
      OnePlantSame(grid, Pos(0, y), Pos(0, y - 1));
      NeighboursMeaning(grid, Pos(0, y), Pos(0, y - 1));
      ReachCorner(grid, r, y - 1);
    }
  }

  lemma {:induction false} ReachColumn(grid: Plots, r: set<Pos>, y: nat)
    requires OnePlant(grid) && Closed(Links(grid), r)
    requires y < |grid| && Pos(0, 0) in r
    ensures Pos(0, y) in r
  {
    if y > 0 {
      ReachColumn(grid, r, y - 1);
      OnePlantSame(grid, Pos(0, y - 1), Pos(0, y));
      NeighboursMeaning(grid, Pos(0, y - 1), Pos(0, y));
    }
  }

  lemma {:induction false} ReachRow(grid: Plots, r: set<Pos>, x: nat, y: nat)
    requires OnePlant(grid) && Closed(Links(grid), r)
    requires y < |grid| && x < Width(grid) && Pos(0, y) in r
    ensures Pos(x, y) in r
  {
    if x > 0 {
      ReachRow(grid, r, x - 1, y);
      OnePlantSame(grid, Pos(x - 1, y), Pos(x, y));
      NeighboursMeaning(grid, Pos(x - 1, y), Pos(x, y));
    }
  }

  lemma ReachAll(grid: Plots, r: set<Pos>, p: Pos)
    requires OnePlant(grid) && Closed(Links(grid), r) && p in r && p in Cells(grid)
    ensures Cells(grid) <= r
  {
    ReachRowStart(grid, r, p.x, p.y);
    ReachCorner(grid, r, p.y);
    forall q | q in Cells(grid) ensures q in r {
      ReachColumn(grid, r, q.y);
      ReachRow(grid, r, q.x, q.y);
    }
  }

  /** A one-plant garden is a single region holding every plot. */
  lemma OnePlantOneRegion(grid: Plots, cost: Pos -> nat)
    requires OnePlant(grid)
    ensures |Regions(grid, cost)| == 1
    ensures Region(Regions(grid, cost)[0]) == Cells(grid)
    ensures NoDup(Regions(grid, cost)[0].visited)
    ensures Regions(grid, cost)[0].price == CostOf(cost, Regions(grid, cost)[0].visited)
  {
    var rs := Regions(grid, cost);
    RegionsPartition(grid, cost);
    RegionsAreComponents(grid, cost);
    RegionPrices(grid, cost);
    assert Pos(0, 0) in Cells(grid);
    assert |rs| >= 1;
    ReachAll(grid, Region(rs[0]), rs[0].visited[0]);
    assert Region(rs[0]) == Cells(grid);
    LinksClosed(grid);
    OrderMeaning(grid);
    SurveyStarts(Links(grid), Cells(grid), cost, Order(grid), {});
    assert OwnWalk(Links(grid), Cells(grid), cost, rs[0]);
    NoDupCardinality(rs[0].visited);
    AreaCounts(rs[1..]);
    assert rs == [rs[0]] + rs[1..];
    TallyCons(rs[0], rs[1..]);
  }

  /** Every region of a survey holds at least one plot. */
  lemma {:induction false} AreaCounts(rs: seq<Tour<Pos>>)
    requires forall i :: 0 <= i < |rs| ==> |rs[i].visited| >= 1
    ensures Area(rs) >= |rs|
  {
    if |rs| > 0 {
      AreaCounts(rs[1..]);
    }
  }

  /** The plots along one edge of a one-plant rectangle. */
  function Edge(grid: Plots, side: Side): set<Pos>
  {
    match side
    case Top => RowCells(0, Width(grid))
    case Bottom => RowCells(|grid| - 1, Width(grid))
    case Left => ColumnCells(0, |grid|)
    case Right => ColumnCells(Width(grid) - 1, |grid|)
  }

  /** The top and bottom edges are as long as the garden is wide, the left
      and right ones as it is high. */
  lemma EdgeSize(grid: Plots, side: Side)
    requires OnePlant(grid)
    ensures |Edge(grid, side)| == if side.Top? || side.Bottom? then Width(grid) else |grid|
  {
    match side
    case Top => RowCellsCount(0, Width(grid));
    case Bottom => RowCellsCount(|grid| - 1, Width(grid));
    case Left => ColumnCellsCount(0, |grid|);
    case Right => ColumnCellsCount(Width(grid) - 1, |grid|);
  }

  lemma EdgeInside(grid: Plots, side: Side)
    requires OnePlant(grid)
    ensures Edge(grid, side) <= Cells(grid)
  {
  }

  function FeeOf(grid: Plots, side: Side): Pos -> nat
  {
    p => Fee(grid, p, side)
  }

  /** In a one-plant rectangle exactly the plots on the matching edge pay
      for a fence on `side`. */
  lemma EdgeFees(grid: Plots, s: seq<Pos>, side: Side)
    requires OnePlant(grid) && NoDup(s) && (set q | q in s) == Cells(grid)
    ensures CostOf(FeeOf(grid, side), s) == |Edge(grid, side)|
  {
    var edge := Edge(grid, side);
    forall q | q in s ensures FeeOf(grid, side)(q) == if q in edge then 1 else 0 {
      assert q in Cells(grid);
      OnePlantSame(grid, q, Toward(q, side));
    }
    CostOfIndicator(FeeOf(grid, side), s, edge);
    EdgeInside(grid, side);
    assert (set q | q in s && q in edge) == edge;
  }

  /** A one-plant rectangle's perimeter is `2 (w + h)`. */
  lemma OnePlantPerimeter(grid: Plots, s: seq<Pos>)
    requires OnePlant(grid) && NoDup(s) && (set q | q in s) == Cells(grid)
    ensures CostOf(PerimeterOf(grid), s) == 2 * (Width(grid) + |grid|)
  {
    var tb: Pos -> nat := (p: Pos) => Fee(grid, p, Top) + Fee(grid, p, Bottom);
    var lr: Pos -> nat := (p: Pos) => Fee(grid, p, Left) + Fee(grid, p, Right);
    forall q | q in s ensures PerimeterOf(grid)(q) == tb(q) + lr(q) {
      assert q in Cells(grid);
    }
    CostOfAdd(PerimeterOf(grid), tb, lr, s);
    CostOfAdd(tb, FeeOf(grid, Top), FeeOf(grid, Bottom), s);
    CostOfAdd(lr, FeeOf(grid, Left), FeeOf(grid, Right), s);
    EdgeFees(grid, s, Top);
    EdgeFees(grid, s, Bottom);
    EdgeFees(grid, s, Left);
    EdgeFees(grid, s, Right);
    EdgeSize(grid, Top);
    EdgeSize(grid, Bottom);
    EdgeSize(grid, Left);
    EdgeSize(grid, Right);
  }

  /** A single region's price is its summed cost times its area. */
  lemma OneRegionPrice(grid: Plots, cost: Pos -> nat)
    requires OnePlant(grid)
    ensures TotalPrice(Regions(grid, cost))
         == Width(grid) * |grid| * CostOf(cost, Regions(grid, cost)[0].visited)
  {
    var rs := Regions(grid, cost);
    OnePlantOneRegion(grid, cost);
    CellsCount(grid);
    assert rs[1..] == [];
  }

  /** A one-plant rectangle of width `w` and height `h` has perimeter
      `2 (w + h)` and so costs `w h 2 (w + h)`. */
  lemma OnePlantPerimeterPrice(grid: Plots)
    requires OnePlant(grid)
    ensures PerimeterPrice(grid) == Width(grid) * |grid| * (2 * (Width(grid) + |grid|))
  {
    var rs := Regions(grid, PerimeterOf(grid));
    OnePlantOneRegion(grid, PerimeterOf(grid));
    OneRegionPrice(grid, PerimeterOf(grid));
    OnePlantPerimeter(grid, rs[0].visited);
  }

  /** The plot that starts the one side along `side` in a one-plant garden:
      the top-left corner starts the top and left sides, the bottom-right
      corner the bottom and right sides. */
  function Corner(grid: Plots, side: Side): Pos
  {
    if side.Top? || side.Left? then Pos(0, 0) else Pos(Width(grid) - 1, |grid| - 1)
  }

  function StartOf(grid: Plots, side: Side): Pos -> nat
  {
    p => Start(grid, p, side)
  }

  lemma CornerStarts(grid: Plots, s: seq<Pos>, side: Side)
    requires OnePlant(grid) && NoDup(s) && (set q | q in s) == Cells(grid)
    ensures CostOf(StartOf(grid, side), s) == 1
  {
    var c := {Corner(grid, side)};
    forall q | q in s ensures StartOf(grid, side)(q) == if q in c then 1 else 0 {
      assert q in Cells(grid);
      OnePlantSame(grid, q, Toward(q, side));
      OnePlantSame(grid, q, Along(q, side));
      if InGrid(grid, Along(q, side).x, Along(q, side).y) {
        OnePlantSame(grid, Along(q, side), Toward(Along(q, side), side));
      }
    }
    CostOfIndicator(StartOf(grid, side), s, c);
    assert Corner(grid, side) in Cells(grid);
    assert (set q | q in s && q in c) == c;
  }

  /** A one-plant rectangle of any size has 4 sides. */
  lemma OnePlantSides(grid: Plots, s: seq<Pos>)
    requires OnePlant(grid) && NoDup(s) && (set q | q in s) == Cells(grid)
    ensures CostOf(SidesOf(grid), s) == 4
  {
    var tb: Pos -> nat := (p: Pos) => Start(grid, p, Top) + Start(grid, p, Bottom);
    var lr: Pos -> nat := (p: Pos) => Start(grid, p, Left) + Start(grid, p, Right);
    forall q | q in s ensures SidesOf(grid)(q) == tb(q) + lr(q) {
      assert q in Cells(grid);
    }
    CostOfAdd(SidesOf(grid), tb, lr, s);
    CostOfAdd(tb, StartOf(grid, Top), StartOf(grid, Bottom), s);
    CostOfAdd(lr, StartOf(grid, Left), StartOf(grid, Right), s);
    CornerStarts(grid, s, Top);
    CornerStarts(grid, s, Bottom);
    CornerStarts(grid, s, Left);
    CornerStarts(grid, s, Right);
  }

  /** ... and so costs 4 per plot. */
  lemma OnePlantSidePrice(grid: Plots)
    requires OnePlant(grid)
    ensures SidePrice(grid) == Width(grid) * |grid| * 4
  {
    var rs := Regions(grid, SidesOf(grid));
    OnePlantOneRegion(grid, SidesOf(grid));
    OneRegionPrice(grid, SidesOf(grid));
    OnePlantSides(grid, rs[0].visited);
  }

  /** A single plot has area 1, perimeter 4 and 4 sides: it costs 4 both ways. */
  lemma SinglePlot(grid: Plots)
    requires |grid| == 1 && |grid[0]| == 1
    ensures PerimeterPrice(grid) == 4 && SidePrice(grid) == 4
  {
    OnePlantPerimeterPrice(grid);
    OnePlantSidePrice(grid);
  }
}
