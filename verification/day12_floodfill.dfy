/** The traversal both challenges of day 12 run. `traverseCell` walks depth
    first from a start cell over same-region neighbours, sharing one visited
    set, and `getTotalPrice` starts such a walk at every cell not yet marked.
    The walk is stated over any finite graph: `links(p)` lists the cells a walk
    may step to from `p`, in the order they are tried, and `cells` is a finite
    set that `links` never leads out of. */
module FloodFill {
  import opened Seqs
  import opened Numbers

  /** What traverseCell returns: the visited cells in the order they were
      added, and the accumulated price. */
  datatype Tour<T> = Tour(visited: seq<T>, price: nat)

  /** `links` never leads out of `s`. */
  ghost predicate Closed<T>(links: T -> seq<T>, s: set<T>)
  {
    forall p, q :: p in s && q in links(p) ==> q in s
  }

  /** Stepping is symmetric, as 4-adjacency between same-label cells is. */
  ghost predicate Symmetric<T>(links: T -> seq<T>, cells: set<T>)
  {
    forall p, q :: p in cells && q in links(p) ==> p in links(q)
  }

  predicate Within<T(==)>(s: seq<T>, cells: set<T>)
  {
    forall q :: q in s ==> q in cells
  }

  /** `long` starts with `short`. */
  predicate Extends<T(==)>(long: seq<T>, short: seq<T>)
  {
    |short| <= |long| && long[..|short|] == short
  }

  /** The summed `cost` of the elements of `s`. */
  function CostOf<T(==)>(cost: T -> nat, s: seq<T>): nat
  {
    if |s| == 0 then 0 else CostOf(cost, s[..|s| - 1]) + cost(s[|s| - 1])
  }

  /** The cells of a tour, as the source's `Set` holds them. */
  function Region<T(==)>(t: Tour<T>): set<T>
  {
    set q | q in t.visited
  }

  // ---------------------------------------------------------------------
  // Sequence helpers

  lemma {:induction false} CostOfAppend<T>(cost: T -> nat, a: seq<T>, b: seq<T>)
    ensures CostOf(cost, a + b) == CostOf(cost, a) + CostOf(cost, b)
    decreases |b|
  {
    if |b| == 0 {
      assert a + b == a;
    } else {
      var n := |b| - 1;
      assert (a + b)[..|a + b| - 1] == a + b[..n];
      CostOfAppend(cost, a, b[..n]);
    }
  }

  lemma CostOfCons<T>(cost: T -> nat, p: T, s: seq<T>)
    ensures CostOf(cost, [p] + s) == cost(p) + CostOf(cost, s)
  {
    CostOfAppend(cost, [p], s);
    assert [p][..0] == [];
  }

  /** Costs that add pointwise add over a sequence. */
  lemma {:induction false} CostOfAdd<T>(f: T -> nat, g: T -> nat, h: T -> nat, s: seq<T>)
    requires forall x :: x in s ==> f(x) == g(x) + h(x)
    ensures CostOf(f, s) == CostOf(g, s) + CostOf(h, s)
  {
    if |s| > 0 {
      CostOfAdd(f, g, h, s[..|s| - 1]);
      assert s[|s| - 1] in s;
    }
  }

  /** A pointwise smaller cost sums to less. */
  lemma {:induction false} CostOfMono<T>(f: T -> nat, g: T -> nat, s: seq<T>)
    requires forall x :: x in s ==> f(x) <= g(x)
    ensures CostOf(f, s) <= CostOf(g, s)
  {
    if |s| > 0 {
      CostOfMono(f, g, s[..|s| - 1]);
      assert s[|s| - 1] in s;
    }
  }

  /** A cost that is 1 on `marks` and 0 elsewhere counts the marked elements
      of a sequence without repeats. */
  lemma {:induction false} CostOfIndicator<T>(f: T -> nat, s: seq<T>, marks: set<T>)
    requires NoDup(s)
    requires forall x :: x in s ==> f(x) == if x in marks then 1 else 0
    ensures CostOf(f, s) == |set x | x in s && x in marks|
  {
    if |s| > 0 {
      var n := |s| - 1;
      CostOfIndicator(f, s[..n], marks);
      MarkedSnoc(s[..n], s[n], marks);
      assert s[..n] + [s[n]] == s;
    }
  }

  /** The marked elements after appending `x`: those before, and `x` itself
      when it is marked and new. */
  lemma MarkedSnoc<T>(s: seq<T>, x: T, marks: set<T>)
    requires x !in s
    ensures |set y | y in s + [x] && y in marks|
            == |set y | y in s && y in marks| + (if x in marks then 1 else 0)
  {
    var before := set y | y in s && y in marks;
    var after := set y | y in s + [x] && y in marks;
    if x in marks {
      assert after == before + {x};
    } else {
      assert after == before;
    }
  }

  /** A repeat-free sequence inside `cells` is no longer than `cells` is big. */
  lemma NoDupWithin<T>(s: seq<T>, cells: set<T>)
    requires NoDup(s) && Within(s, cells)
    ensures |s| <= |cells|
  {
    NoDupCardinality(s);
    var a := set x | x in s;
    assert cells == a + (cells - a);
  }

  lemma ExtendsTrans<T>(c: seq<T>, b: seq<T>, a: seq<T>)
    requires Extends(c, b) && Extends(b, a)
    ensures Extends(c, a)
    ensures c[|a|..] == b[|a|..] + c[|b|..]
  {
    assert c[..|a|] == c[..|b|][..|a|];
    assert c[|a|..] == c[|a|..|b|] + c[|b|..];
    assert c[|a|..|b|] == c[..|b|][|a|..];
  }

  lemma ExtendsIn<T>(b: seq<T>, a: seq<T>)
    requires Extends(b, a)
    ensures forall x :: x in a ==> x in b
  {
    forall x | x in a ensures x in b {
      var i :| 0 <= i < |a| && a[i] == x;
      assert b[i] == b[..|a|][i];
    }
  }

  // ---------------------------------------------------------------------
  // traverseCell

  /** traverseCell: mark `p`, then walk from each neighbour in turn that is
      still unvisited when its turn comes. The price is `cost(p)` plus the
      prices of those walks, which is the cost of every cell the walk adds. */
  function Visit<T(==)>(links: T -> seq<T>, cells: set<T>, cost: T -> nat, p: T, seen: seq<T>): (r: Tour<T>)
    requires Closed(links, cells) && p in cells && p !in seen
    requires NoDup(seen) && Within(seen, cells)
    ensures Extends(r.visited, seen + [p]) && NoDup(r.visited) && Within(r.visited, cells)
    ensures r.price == CostOf(cost, r.visited[|seen|..])
    decreases |cells| - |seen|, 0
  {
    NoDupSnoc(seen, p);
    NoDupWithin(seen + [p], cells);
    var rest := Walk(links, cells, cost, links(p), seen + [p]);
    ExtendsTrans(rest.visited, seen + [p], seen);
    assert rest.visited[|seen|..] == [p] + rest.visited[|seen| + 1..] by {
      assert rest.visited[|seen|] == (seen + [p])[|seen|];
    }
    CostOfCons(cost, p, rest.visited[|seen| + 1..]);
    Tour(rest.visited, cost(p) + rest.price)
  }

  /** The neighbour checks of traverseCell, one after another; a neighbour
      reached by an earlier walk is skipped. */
  function Walk<T(==)>(links: T -> seq<T>, cells: set<T>, cost: T -> nat, nbrs: seq<T>, seen: seq<T>): (r: Tour<T>)
    requires Closed(links, cells) && Within(nbrs, cells)
    requires NoDup(seen) && Within(seen, cells)
    ensures Extends(r.visited, seen) && NoDup(r.visited) && Within(r.visited, cells)
    ensures r.price == CostOf(cost, r.visited[|seen|..])
    decreases |cells| - |seen|, 1, |nbrs|
  {
    if |nbrs| == 0 then
      assert seen[|seen|..] == [];
      Tour(seen, 0)
    else if nbrs[0] in seen then
      Walk(links, cells, cost, nbrs[1..], seen)
    else
      var first := Visit(links, cells, cost, nbrs[0], seen);
      NoDupWithin(first.visited, cells);
      ExtendsTrans(first.visited, seen + [nbrs[0]], seen);
      var rest := Walk(links, cells, cost, nbrs[1..], first.visited);
      ExtendsTrans(rest.visited, first.visited, seen);
      CostOfAppend(cost, first.visited[|seen|..], rest.visited[|first.visited|..]);
      Tour(rest.visited, first.price + rest.price)
  }

  /** The visited cells do not depend on what is being priced: both
      challenges walk the same regions. */
  lemma {:induction false} VisitIgnoresCost<T>(links: T -> seq<T>, cells: set<T>, c1: T -> nat, c2: T -> nat, p: T, seen: seq<T>)
    requires Closed(links, cells) && p in cells && p !in seen
    requires NoDup(seen) && Within(seen, cells)
    ensures Visit(links, cells, c1, p, seen).visited == Visit(links, cells, c2, p, seen).visited
    decreases |cells| - |seen|, 0
  {
    NoDupSnoc(seen, p);
    NoDupWithin(seen + [p], cells);
    WalkIgnoresCost(links, cells, c1, c2, links(p), seen + [p]);
  }

  lemma {:induction false} WalkIgnoresCost<T>(links: T -> seq<T>, cells: set<T>, c1: T -> nat, c2: T -> nat, nbrs: seq<T>, seen: seq<T>)
    requires Closed(links, cells) && Within(nbrs, cells)
    requires NoDup(seen) && Within(seen, cells)
    ensures Walk(links, cells, c1, nbrs, seen).visited == Walk(links, cells, c2, nbrs, seen).visited
    decreases |cells| - |seen|, 1, |nbrs|
  {
    if |nbrs| > 0 {
      if nbrs[0] in seen {
        WalkIgnoresCost(links, cells, c1, c2, nbrs[1..], seen);
      } else {
        VisitIgnoresCost(links, cells, c1, c2, nbrs[0], seen);
        var first := Visit(links, cells, c1, nbrs[0], seen);
        NoDupWithin(first.visited, cells);
        WalkIgnoresCost(links, cells, c1, c2, nbrs[1..], first.visited);
      }
    }
  }

  // ---------------------------------------------------------------------
  // A walk visits exactly the region of its start

  /** Everything a walk adds lies in any closed set holding its start. */
  lemma {:induction false} VisitStaysIn<T>(links: T -> seq<T>, cells: set<T>, cost: T -> nat, p: T, seen: seq<T>, s: set<T>)
    requires Closed(links, cells) && p in cells && p !in seen
    requires NoDup(seen) && Within(seen, cells)
    requires Closed(links, s) && p in s
    ensures forall q :: q in Visit(links, cells, cost, p, seen).visited ==> q in seen || q in s
    decreases |cells| - |seen|, 0
  {
    NoDupSnoc(seen, p);
    NoDupWithin(seen + [p], cells);
    WalkStaysIn(links, cells, cost, links(p), seen + [p], s);
  }

  lemma {:induction false} WalkStaysIn<T>(links: T -> seq<T>, cells: set<T>, cost: T -> nat, nbrs: seq<T>, seen: seq<T>, s: set<T>)
    requires Closed(links, cells) && Within(nbrs, cells)
    requires NoDup(seen) && Within(seen, cells)
    requires Closed(links, s) && Within(nbrs, s)
    ensures forall q :: q in Walk(links, cells, cost, nbrs, seen).visited ==> q in seen || q in s
    decreases |cells| - |seen|, 1, |nbrs|
  {
    if |nbrs| > 0 {
      if nbrs[0] in seen {
        WalkStaysIn(links, cells, cost, nbrs[1..], seen, s);
      } else {
        VisitStaysIn(links, cells, cost, nbrs[0], seen, s);
        var first := Visit(links, cells, cost, nbrs[0], seen);
        NoDupWithin(first.visited, cells);
        WalkStaysIn(links, cells, cost, nbrs[1..], first.visited, s);
      }
    }
  }

  /** Every cell a walk adds has all its links visited too. */
  ghost predicate ClosedBeyond<T>(links: T -> seq<T>, visited: seq<T>, seen: seq<T>)
  {
    forall q, n :: q in visited && q !in seen && n in links(q) ==> n in visited
  }

  lemma {:induction false} VisitCloses<T>(links: T -> seq<T>, cells: set<T>, cost: T -> nat, p: T, seen: seq<T>)
    requires Closed(links, cells) && p in cells && p !in seen
    requires NoDup(seen) && Within(seen, cells)
    ensures p in Visit(links, cells, cost, p, seen).visited
    ensures ClosedBeyond(links, Visit(links, cells, cost, p, seen).visited, seen)
    decreases |cells| - |seen|, 0
  {
    NoDupSnoc(seen, p);
    NoDupWithin(seen + [p], cells);
    WalkCloses(links, cells, cost, links(p), seen + [p]);
    ExtendsIn(Visit(links, cells, cost, p, seen).visited, seen + [p]);
  }

  lemma {:induction false} WalkCloses<T>(links: T -> seq<T>, cells: set<T>, cost: T -> nat, nbrs: seq<T>, seen: seq<T>)
    requires Closed(links, cells) && Within(nbrs, cells)
    requires NoDup(seen) && Within(seen, cells)
    ensures Within(nbrs, Region(Walk(links, cells, cost, nbrs, seen)))
    ensures ClosedBeyond(links, Walk(links, cells, cost, nbrs, seen).visited, seen)
    decreases |cells| - |seen|, 1, |nbrs|
  {
    var r := Walk(links, cells, cost, nbrs, seen);
    if |nbrs| > 0 {
      if nbrs[0] in seen {
        WalkCloses(links, cells, cost, nbrs[1..], seen);
        ExtendsIn(r.visited, seen);
        assert nbrs == [nbrs[0]] + nbrs[1..];
      } else {
        var first := Visit(links, cells, cost, nbrs[0], seen);
        VisitCloses(links, cells, cost, nbrs[0], seen);
        NoDupWithin(first.visited, cells);
        WalkCloses(links, cells, cost, nbrs[1..], first.visited);
        ExtendsIn(r.visited, first.visited);
        assert nbrs == [nbrs[0]] + nbrs[1..];
      }
    }
  }

  /** traverseCell from a fresh visited set: the walk holds its start and
      every link of every visited cell. */
  lemma RegionClosed<T>(links: T -> seq<T>, cells: set<T>, cost: T -> nat, p: T)
    requires Closed(links, cells) && p in cells
    ensures p in Region(Visit(links, cells, cost, p, []))
    ensures Closed(links, Region(Visit(links, cells, cost, p, [])))
  {
    VisitCloses(links, cells, cost, p, []);
  }

  /** ... and it holds nothing else: it lies inside every set that holds the
      start and that `links` never leads out of. With `RegionClosed`, the walk
      visits exactly the cells reachable from its start. */
  lemma RegionLeast<T>(links: T -> seq<T>, cells: set<T>, cost: T -> nat, p: T, s: set<T>)
    requires Closed(links, cells) && p in cells
    requires Closed(links, s) && p in s
    ensures Region(Visit(links, cells, cost, p, [])) <= s
  {
    VisitStaysIn(links, cells, cost, p, [], s);
  }

  /** A run of steps along `links`. */
  ghost predicate IsPath<T>(links: T -> seq<T>, w: seq<T>)
  {
    forall i :: 0 <= i < |w| - 1 ==> w[i + 1] in links(w[i])
  }

  /** Every path from the start stays inside the walk's region. */
  lemma {:induction false} PathInRegion<T>(links: T -> seq<T>, r: set<T>, w: seq<T>)
    requires Closed(links, r) && IsPath(links, w) && |w| >= 1 && w[0] in r
    ensures forall q :: q in w ==> q in r
  {
    if |w| > 1 {
      PathInRegion(links, r, w[..|w| - 1]);
      assert w[|w| - 2] in w[..|w| - 1];
      assert w == w[..|w| - 1] + [w[|w| - 1]];
    }
  }

  // ---------------------------------------------------------------------
  // getTotalPrice

  /** getTotalPrice's loop over the cells in `order`: a cell already marked is
      skipped, any other starts a walk with a fresh visited set, whose cells
      are then marked. The walks are returned in order. */
  function Survey<T(==)>(links: T -> seq<T>, cells: set<T>, cost: T -> nat, order: seq<T>, marked: set<T>): seq<Tour<T>>
    requires Closed(links, cells) && Within(order, cells)
    decreases |order|
  {
    if |order| == 0 then []
    else if order[0] in marked then Survey(links, cells, cost, order[1..], marked)
    else
      var t := Visit(links, cells, cost, order[0], []);
      [t] + Survey(links, cells, cost, order[1..], marked + Region(t))
  }

  /** `totalPrice += price * visitedCells.size` over the walks. */
  function TotalPrice<T(==)>(tours: seq<Tour<T>>): nat
  {
    if |tours| == 0 then 0 else tours[0].price * |Region(tours[0])| + TotalPrice(tours[1..])
  }

  /** The summed areas of the walks. */
  function Area<T(==)>(tours: seq<Tour<T>>): nat
  {
    if |tours| == 0 then 0 else |tours[0].visited| + Area(tours[1..])
  }

  /** Every cell some walk visited. */
  function Covered<T(==)>(tours: seq<Tour<T>>): set<T>
  {
    if |tours| == 0 then {} else Region(tours[0]) + Covered(tours[1..])
  }

  lemma {:induction false} CoveredHoldsEach<T>(tours: seq<Tour<T>>, i: nat)
    requires i < |tours|
    ensures Region(tours[i]) <= Covered(tours)
  {
    if i > 0 {
      CoveredHoldsEach(tours[1..], i - 1);
    }
  }

  /** With stepping symmetric, the cells outside a closed set form a closed
      set too. */
  lemma OutsideClosed<T>(links: T -> seq<T>, cells: set<T>, marked: set<T>)
    requires Closed(links, cells) && Symmetric(links, cells) && Closed(links, marked)
    ensures Closed(links, cells - marked)
  {
  }

  /** Each walk is the walk from its own first cell. */
  ghost predicate OwnWalks<T>(links: T -> seq<T>, cells: set<T>, cost: T -> nat, tours: seq<Tour<T>>)
    requires Closed(links, cells)
  {
    forall i :: 0 <= i < |tours| ==> OwnWalk(links, cells, cost, tours[i])
  }

  ghost predicate OwnWalk<T>(links: T -> seq<T>, cells: set<T>, cost: T -> nat, t: Tour<T>)
    requires Closed(links, cells)
  {
    |t.visited| >= 1 && t.visited[0] in cells && t == Visit(links, cells, cost, t.visited[0], [])
  }

  /** Each walk of the survey is the walk from its own first cell. */
  lemma {:induction false} SurveyStarts<T>(links: T -> seq<T>, cells: set<T>, cost: T -> nat, order: seq<T>, marked: set<T>)
    requires Closed(links, cells) && Within(order, cells)
    ensures OwnWalks(links, cells, cost, Survey(links, cells, cost, order, marked))
    decreases |order|
  {
    if |order| > 0 {
      if order[0] in marked {
        SurveyStarts(links, cells, cost, order[1..], marked);
      } else {
        var p := order[0];
        var t := Visit(links, cells, cost, p, []);
        assert [] + [p] == [p];
        assert t.visited[0] == p by {
          assert t.visited[..1] == [p];
        }
        var rest := Survey(links, cells, cost, order[1..], marked + Region(t));
        SurveyStarts(links, cells, cost, order[1..], marked + Region(t));
        var tours := [t] + rest;
        assert OwnWalk(links, cells, cost, t);
        forall i | 0 <= i < |tours| ensures OwnWalk(links, cells, cost, tours[i]) {
          if i > 0 {
            assert tours[i] == rest[i - 1];
          }
        }
      }
    }
  }

  /** Each walk's price is the summed cost of its cells: the `reduce` over
      the results adds every visited cell's cost exactly once. */
  lemma SurveyPrices<T>(links: T -> seq<T>, cells: set<T>, cost: T -> nat, order: seq<T>, marked: set<T>)
    requires Closed(links, cells) && Within(order, cells)
    ensures var tours := Survey(links, cells, cost, order, marked);
            forall i :: 0 <= i < |tours| ==> tours[i].price == CostOf(cost, tours[i].visited)
  {
    var tours := Survey(links, cells, cost, order, marked);
    SurveyStarts(links, cells, cost, order, marked);
    forall i | 0 <= i < |tours| ensures tours[i].price == CostOf(cost, tours[i].visited) {
      assert OwnWalk(links, cells, cost, tours[i]);
      assert tours[i].visited[0..] == tours[i].visited;
    }
  }

  /** A new walk starts outside the marked cells, so it stays outside them. */
  lemma FreshRegion<T>(links: T -> seq<T>, cells: set<T>, cost: T -> nat, p: T, marked: set<T>)
    requires Closed(links, cells) && Symmetric(links, cells) && p in cells && p !in marked
    requires Closed(links, marked)
    ensures Region(Visit(links, cells, cost, p, [])) !! marked
    ensures Region(Visit(links, cells, cost, p, [])) <= cells
    ensures Closed(links, marked + Region(Visit(links, cells, cost, p, [])))
  {
    RegionClosed(links, cells, cost, p);
    OutsideClosed(links, cells, marked);
    RegionLeast(links, cells, cost, p, cells - marked);
  }

  /** The walks are pairwise disjoint, disjoint from the cells marked before,
      and inside `cells`. */
  lemma {:induction false} SurveyDisjoint<T>(links: T -> seq<T>, cells: set<T>, cost: T -> nat, order: seq<T>, marked: set<T>)
    requires Closed(links, cells) && Symmetric(links, cells) && Within(order, cells)
    requires Closed(links, marked)
    ensures var tours := Survey(links, cells, cost, order, marked);
            && (forall i, j :: 0 <= i < j < |tours| ==> Region(tours[i]) !! Region(tours[j]))
            && Covered(tours) !! marked
            && Covered(tours) <= cells
    decreases |order|
  {
    if |order| > 0 {
      if order[0] in marked {
        SurveyDisjoint(links, cells, cost, order[1..], marked);
      } else {
        var t := Visit(links, cells, cost, order[0], []);
        FreshRegion(links, cells, cost, order[0], marked);
        var rest := Survey(links, cells, cost, order[1..], marked + Region(t));
        SurveyDisjoint(links, cells, cost, order[1..], marked + Region(t));
        var tours := [t] + rest;
        assert tours[1..] == rest;
        forall i, j | 0 <= i < j < |tours| ensures Region(tours[i]) !! Region(tours[j]) {
          if i == 0 {
            CoveredHoldsEach(rest, j - 1);
          } else {
            assert tours[i] == rest[i - 1] && tours[j] == rest[j - 1];
          }
        }
      }
    }
  }

  /** Every cell of `order` ends up marked before or walked. */
  lemma {:induction false} SurveyCovers<T>(links: T -> seq<T>, cells: set<T>, cost: T -> nat, order: seq<T>, marked: set<T>)
    requires Closed(links, cells) && Within(order, cells)
    ensures forall q :: q in order ==> q in marked || q in Covered(Survey(links, cells, cost, order, marked))
    decreases |order|
  {
    if |order| > 0 {
      if order[0] in marked {
        SurveyCovers(links, cells, cost, order[1..], marked);
      } else {
        var t := Visit(links, cells, cost, order[0], []);
        VisitCloses(links, cells, cost, order[0], []);
        SurveyCovers(links, cells, cost, order[1..], marked + Region(t));
        assert ([t] + Survey(links, cells, cost, order[1..], marked + Region(t)))[1..]
            == Survey(links, cells, cost, order[1..], marked + Region(t));
      }
      assert order == [order[0]] + order[1..];
    }
  }

  /** The areas add up to the number of cells walked. */
  lemma {:induction false} SurveyArea<T>(links: T -> seq<T>, cells: set<T>, cost: T -> nat, order: seq<T>, marked: set<T>)
    requires Closed(links, cells) && Symmetric(links, cells) && Within(order, cells)
    requires Closed(links, marked)
    ensures Area(Survey(links, cells, cost, order, marked)) == |Covered(Survey(links, cells, cost, order, marked))|
    decreases |order|
  {
    if |order| > 0 {
      if order[0] in marked {
        SurveyArea(links, cells, cost, order[1..], marked);
      } else {
        var t := Visit(links, cells, cost, order[0], []);
        FreshRegion(links, cells, cost, order[0], marked);
        var rest := Survey(links, cells, cost, order[1..], marked + Region(t));
        SurveyArea(links, cells, cost, order[1..], marked + Region(t));
        SurveyDisjoint(links, cells, cost, order[1..], marked + Region(t));
        NoDupCardinality(t.visited);
        TallyCons(t, rest);
        DisjointUnionSize(Region(t), Covered(rest));
      }
    }
  }

  lemma TallyCons<T>(t: Tour<T>, rest: seq<Tour<T>>)
    ensures Area([t] + rest) == |t.visited| + Area(rest)
    ensures Covered([t] + rest) == Region(t) + Covered(rest)
  {
    assert ([t] + rest)[1..] == rest;
  }

  /** getTotalPrice from an empty set over an order holding every cell: every
      cell is priced in exactly one region, each region is the region of its
      first cell, and the areas add up to the number of cells. */
  lemma SurveyCoversAll<T>(links: T -> seq<T>, cells: set<T>, cost: T -> nat, order: seq<T>)
    requires Closed(links, cells) && Symmetric(links, cells) && Within(order, cells)
    requires forall q :: q in cells ==> q in order
    ensures var tours := Survey(links, cells, cost, order, {});
            && OwnWalks(links, cells, cost, tours)
            && (forall i, j :: 0 <= i < j < |tours| ==> Region(tours[i]) !! Region(tours[j]))
            && Covered(tours) == cells
            && Area(tours) == |cells|
  {
    SurveyStarts(links, cells, cost, order, {});
    SurveyDisjoint(links, cells, cost, order, {});
    SurveyCovers(links, cells, cost, order, {});
    SurveyArea(links, cells, cost, order, {});
  }

  /** The survey walks the same regions whatever it prices. */
  lemma {:induction false} SurveyIgnoresCost<T>(links: T -> seq<T>, cells: set<T>, c1: T -> nat, c2: T -> nat, order: seq<T>, marked: set<T>)
    requires Closed(links, cells) && Within(order, cells)
    ensures |Survey(links, cells, c1, order, marked)| == |Survey(links, cells, c2, order, marked)|
    ensures forall i :: 0 <= i < |Survey(links, cells, c1, order, marked)| ==>
              Survey(links, cells, c1, order, marked)[i].visited == Survey(links, cells, c2, order, marked)[i].visited
    decreases |order|
  {
    if |order| > 0 {
      if order[0] in marked {
        SurveyIgnoresCost(links, cells, c1, c2, order[1..], marked);
      } else {
        VisitIgnoresCost(links, cells, c1, c2, order[0], []);
        var t1, t2 := Visit(links, cells, c1, order[0], []), Visit(links, cells, c2, order[0], []);
        var m := marked + Region(t1);
        assert m == marked + Region(t2);
        SurveyIgnoresCost(links, cells, c1, c2, order[1..], m);
        var s1, s2 := Survey(links, cells, c1, order[1..], m), Survey(links, cells, c2, order[1..], m);
        assert Survey(links, cells, c1, order, marked) == [t1] + s1;
        assert Survey(links, cells, c2, order, marked) == [t2] + s2;
        ConsSameVisits(t1, t2, s1, s2);
      }
    }
  }

  /** Putting walks over the same cells in front keeps two lists of walks
      visiting the same cells, walk by walk. */
  lemma ConsSameVisits<T>(t1: Tour<T>, t2: Tour<T>, s1: seq<Tour<T>>, s2: seq<Tour<T>>)
    requires t1.visited == t2.visited && |s1| == |s2|
    requires forall i :: 0 <= i < |s1| ==> s1[i].visited == s2[i].visited
    ensures |[t1] + s1| == |[t2] + s2|
    ensures forall i :: 0 <= i < |[t1] + s1| ==> ([t1] + s1)[i].visited == ([t2] + s2)[i].visited
  {
    forall i | 1 <= i <= |s1| ensures ([t1] + s1)[i] == s1[i - 1] && ([t2] + s2)[i] == s2[i - 1] {
    }
  }

  /** Walks over the same cells priced lower total lower. */
  lemma {:induction false} TotalPriceMono<T>(lo: seq<Tour<T>>, hi: seq<Tour<T>>)
    requires |lo| == |hi|
    requires forall i :: 0 <= i < |lo| ==> lo[i].visited == hi[i].visited && lo[i].price <= hi[i].price
    ensures TotalPrice(lo) <= TotalPrice(hi)
  {
    if |lo| > 0 {
      TotalPriceMono(lo[1..], hi[1..]);
      assert Region(lo[0]) == Region(hi[0]);
      MulMono(lo[0].price, hi[0].price, |Region(lo[0])|);
    }
  }

  /** Once every cell of `order` is marked, the survey starts no more walks. */
  lemma {:induction false} SurveyAllMarked<T>(links: T -> seq<T>, cells: set<T>, cost: T -> nat, order: seq<T>, marked: set<T>)
    requires Closed(links, cells) && Within(order, cells)
    requires forall q :: q in order ==> q in marked
    ensures Survey(links, cells, cost, order, marked) == []
    decreases |order|
  {
    if |order| > 0 {
      SurveyAllMarked(links, cells, cost, order[1..], marked);
    }
  }
}
