/** Rectangular grids stored as rows (`grid[y][x]`), and lookups that return
    `None` where the source reads `undefined` off the grid. */
module Grids {
  import opened Options

  datatype Pos = Pos(x: int, y: int)

  /** `p` and `q` are orthogonal neighbours: they share an edge. */
  predicate Adjacent(p: Pos, q: Pos)
  {
    (p.x == q.x && (q.y == p.y - 1 || q.y == p.y + 1)) ||
    (p.y == q.y && (q.x == p.x - 1 || q.x == p.x + 1))
  }

  type Grid<T> = seq<seq<T>>

  /** Every row has the width of the first one. */
  predicate IsRect<T>(g: Grid<T>)
  {
    forall y :: 0 <= y < |g| ==> |g[y]| == |g[0]|
  }

  function Width<T>(g: Grid<T>): nat
  {
    if |g| == 0 then 0 else |g[0]|
  }

  predicate InGrid<T>(g: Grid<T>, x: int, y: int)
  {
    0 <= y < |g| && 0 <= x < |g[y]|
  }

  /** `grid[y]?.[x]`: the cell, or `None` when either index leaves the grid. */
  function At<T>(g: Grid<T>, x: int, y: int): (r: Option<T>)
    ensures r.Some? <==> InGrid(g, x, y)
    ensures r.Some? ==> r.value == g[y][x]
  {
    if InGrid(g, x, y) then Some(g[y][x]) else None
  }

  /** All cells of a rectangular grid. */
  function Cells<T>(g: Grid<T>): (cs: set<Pos>)
    ensures forall p :: p in cs <==> InGrid(g, p.x, p.y)
  {
    set y, x | 0 <= y < |g| && 0 <= x < |g[y]| :: Pos(x, y)
  }

  /** The grid with one cell replaced (the `newGrid[y][x] = v` of a copied grid). */
  function SetCell<T>(g: Grid<T>, x: int, y: int, v: T): (h: Grid<T>)
    requires InGrid(g, x, y)
    ensures |h| == |g|
    ensures forall j :: 0 <= j < |g| ==> |h[j]| == |g[j]|
    ensures h[y][x] == v
    ensures forall j, i :: 0 <= j < |g| && 0 <= i < |g[j]| && (i != x || j != y) ==> h[j][i] == g[j][i]
  {
    g[y := g[y][x := v]]
  }

  /** `score(x, 0) + ... + score(x, rows - 1)`: one column of a scan. */
  function SumColumn(score: (int, int) -> nat, x: int, rows: nat): nat
  {
    if rows == 0 then 0 else SumColumn(score, x, rows - 1) + score(x, rows - 1)
  }

  /** The sum of `score` over the columns `0 .. cols - 1`, each read top to
      bottom over `rows` rows: what a loop over `x` around a loop over `y`
      accumulates. */
  function SumScan(score: (int, int) -> nat, cols: nat, rows: nat): nat
  {
    if cols == 0 then 0 else SumScan(score, cols - 1, rows) + SumColumn(score, cols - 1, rows)
  }

  lemma {:induction false} SumColumnZero(score: (int, int) -> nat, x: int, rows: nat)
    requires forall y :: 0 <= y < rows ==> score(x, y) == 0
    ensures SumColumn(score, x, rows) == 0
  {
    if rows > 0 {
      SumColumnZero(score, x, rows - 1);
    }
  }

  /** Cells that score nothing add nothing. */
  lemma {:induction false} SumScanZero(score: (int, int) -> nat, cols: nat, rows: nat)
    requires forall x, y :: 0 <= x < cols && 0 <= y < rows ==> score(x, y) == 0
    ensures SumScan(score, cols, rows) == 0
  {
    if cols > 0 {
      SumScanZero(score, cols - 1, rows);
      SumColumnZero(score, cols - 1, rows);
    }
  }

  lemma {:induction false} SumColumnBound(score: (int, int) -> nat, x: int, rows: nat, b: nat)
    requires forall y :: 0 <= y < rows ==> score(x, y) <= b
    ensures SumColumn(score, x, rows) <= b * rows
  {
    if rows > 0 {
      SumColumnBound(score, x, rows - 1, b);
    }
  }

  /** A per-cell bound bounds the scan. */
  lemma {:induction false} SumScanBound(score: (int, int) -> nat, cols: nat, rows: nat, b: nat)
    requires forall x, y :: 0 <= x < cols && 0 <= y < rows ==> score(x, y) <= b
    ensures SumScan(score, cols, rows) <= b * rows * cols
  {
    if cols > 0 {
      SumScanBound(score, cols - 1, rows, b);
      SumColumnBound(score, cols - 1, rows, b);
      assert b * rows * cols == b * rows * (cols - 1) + b * rows;
    }
  }

  /** A pointwise smaller score scans to a smaller sum. */
  lemma {:induction false} SumColumnMono(lo: (int, int) -> nat, hi: (int, int) -> nat, x: int, rows: nat)
    requires forall y :: 0 <= y < rows ==> lo(x, y) <= hi(x, y)
    ensures SumColumn(lo, x, rows) <= SumColumn(hi, x, rows)
  {
    if rows > 0 {
      SumColumnMono(lo, hi, x, rows - 1);
    }
  }

  lemma {:induction false} SumScanMono(lo: (int, int) -> nat, hi: (int, int) -> nat, cols: nat, rows: nat)
    requires forall x, y :: 0 <= x < cols && 0 <= y < rows ==> lo(x, y) <= hi(x, y)
    ensures SumScan(lo, cols, rows) <= SumScan(hi, cols, rows)
  {
    if cols > 0 {
      SumScanMono(lo, hi, cols - 1, rows);
      SumColumnMono(lo, hi, cols - 1, rows);
    }
  }

  /** The cells `(0, y) .. (w - 1, y)`. */
  function RowCells(y: int, w: nat): set<Pos>
  {
    set x | 0 <= x < w :: Pos(x, y)
  }

  lemma {:induction false} RowCellsCount(y: int, w: nat)
    ensures |RowCells(y, w)| == w
  {
    if w > 0 {
      RowCellsCount(y, w - 1);
      assert RowCells(y, w) == RowCells(y, w - 1) + {Pos(w - 1, y)};
    }
  }

  /** The cells `(x, 0) .. (x, h - 1)`. */
  function ColumnCells(x: int, h: nat): set<Pos>
  {
    set y | 0 <= y < h :: Pos(x, y)
  }

  lemma {:induction false} ColumnCellsCount(x: int, h: nat)
    ensures |ColumnCells(x, h)| == h
  {
    if h > 0 {
      ColumnCellsCount(x, h - 1);
      assert ColumnCells(x, h) == ColumnCells(x, h - 1) + {Pos(x, h - 1)};
    }
  }

  /** The cells of a `w` by `h` rectangle. */
  function RectCells(w: nat, h: nat): set<Pos>
  {
    set y, x | 0 <= y < h && 0 <= x < w :: Pos(x, y)
  }

  lemma {:induction false} RectCellsCount(w: nat, h: nat)
    ensures |RectCells(w, h)| == w * h
  {
    if h > 0 {
      RectCellsCount(w, h - 1);
      RowCellsCount(h - 1, w);
      var a, b := RectCells(w, h - 1), RowCells(h - 1, w);
      forall p | p in RectCells(w, h) ensures p in a + b {
        if p.y < h - 1 {
          assert p in a;
        } else {
          assert p in b;
        }
      }
      assert a + b <= RectCells(w, h);
      forall p | p in a ensures p !in b {
      }
      assert RectCells(w, h) == a + b;
      assert |a + b| == |a| + |b|;
      assert w * h == w * (h - 1) + w;
    }
  }

  /** A rectangular grid has `width * height` cells. */
  lemma CellsCount<T>(g: Grid<T>)
    requires IsRect(g)
    ensures |Cells(g)| == Width(g) * |g|
  {
    assert Cells(g) == RectCells(Width(g), |g|);
    RectCellsCount(Width(g), |g|);
  }

  // ---------------------------------------------------------------------
  // Row-major scans

  /** Row-major order: `p` comes before `q`. */
  predicate Before(p: Pos, q: Pos)
  {
    p.y < q.y || (p.y == q.y && p.x < q.x)
  }

  /** The cells of row `y`, left to right, with their contents. */
  function RowScan<T>(row: seq<T>, y: int): (r: seq<(Pos, T)>)
    ensures |r| == |row|
    ensures forall x :: 0 <= x < |row| ==> r[x] == (Pos(x, y), row[x])
  {
    seq(|row|, x requires 0 <= x < |row| => (Pos(x, y), row[x]))
  }

  /** The `forEach` over rows and cells: every cell with its content, in
      row-major order. */
  function Scan<T(==,!new)>(grid: Grid<T>): (entries: seq<(Pos, T)>)
    ensures forall e :: e in entries <==> InGrid(grid, e.0.x, e.0.y) && e.1 == grid[e.0.y][e.0.x]
    ensures forall i, j :: 0 <= i < j < |entries| ==> Before(entries[i].0, entries[j].0)
    ensures forall i :: 0 <= i < |entries| ==> 0 <= entries[i].0.y < |grid|
  {
    if |grid| == 0 then []
    else
      var n := |grid| - 1;
      var prefix, last := Scan(grid[..n]), RowScan(grid[n], n);
      assert forall e :: e in last <==> 0 <= e.0.x < |grid[n]| && e.0.y == n && e.1 == grid[n][e.0.x] by {
        forall e | e in last
          ensures 0 <= e.0.x < |grid[n]| && e.0.y == n && e.1 == grid[n][e.0.x]
        {
          var x :| 0 <= x < |last| && last[x] == e;
        }
      }
      prefix + last
  }

  /** The positions holding `c`, in order. */
  function Positions<T(==)>(entries: seq<(Pos, T)>, c: T): (ps: seq<Pos>)
    ensures |ps| <= |entries|
  {
    if |entries| == 0 then []
    else
      var e := entries[|entries| - 1];
      Positions(entries[..|entries| - 1], c) + (if e.1 == c then [e.0] else [])
  }

  lemma PositionsSnoc<T>(entries: seq<(Pos, T)>, e: (Pos, T), c: T)
    ensures Positions(entries + [e], c) == Positions(entries, c) + (if e.1 == c then [e.0] else [])
  {
    assert (entries + [e])[..|entries|] == entries;
  }

  /** A position is listed for `c` exactly when its entry holds `c`. */
  lemma {:induction false} PositionsMeaning<T>(entries: seq<(Pos, T)>, c: T, p: Pos)
    ensures p in Positions(entries, c) <==> (p, c) in entries
  {
    if |entries| > 0 {
      var n := |entries| - 1;
      PositionsMeaning(entries[..n], c, p);
      assert entries == entries[..n] + [entries[n]];
    }
  }

  /** Positions taken from a scan in strict order repeat nothing. */
  lemma {:induction false} PositionsOrdered<T>(entries: seq<(Pos, T)>, c: T)
    requires forall i, j :: 0 <= i < j < |entries| ==> Before(entries[i].0, entries[j].0)
    ensures forall i, j :: 0 <= i < j < |Positions(entries, c)| ==> Before(Positions(entries, c)[i], Positions(entries, c)[j])
  {
    if |entries| > 0 {
      var n := |entries| - 1;
      PositionsOrdered(entries[..n], c);
      forall p | p in Positions(entries[..n], c)
        ensures Before(p, entries[n].0)
      {
        PositionsMeaning(entries[..n], c, p);
      }
    }
  }
}
