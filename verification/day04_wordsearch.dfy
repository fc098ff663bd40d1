/** Day 4: a word search. Challenge 1 counts every XMAS written in one of the
    eight directions; challenge 2 counts the `A`s at the centre of two
    crossing MAS. Rows are the lines of the input and cells their characters;
    a read off the grid is JavaScript's `undefined`, which equals no letter. */
module WordSearch {
  import opened Options
  import opened Seqs
  import opened Text
  import opened Grids

  /** `data.split("\n").map((line) => line.split(""))`. */
  function Lines(data: string): (g: Grid<char>)
    ensures |g| >= 1
  {
    Split(data, "\n")
  }

  /** `word` is written from (x, y) on, one step `(dx, dy)` per letter. */
  predicate Spells(g: Grid<char>, x: int, y: int, dx: int, dy: int, word: string)
  {
    forall k :: 0 <= k < |word| ==> At(g, x + k * dx, y + k * dy) == Some(word[k])
  }

  // ---------------------------------------------------------------------
  // Challenge 1

  /** A reading direction: `dx` to the right and `dy` down per letter. */
  datatype Dir = Dir(dx: int, dy: int)

  const Horizontal := Dir(1, 0)
  const BackwardHorizontal := Dir(-1, 0)
  const Vertical := Dir(0, 1)
  const BackwardsVertical := Dir(0, -1)
  const BottomRightDiagonal := Dir(1, 1)
  const BottomLeftDiagonal := Dir(-1, 1)
  const TopRightDiagonal := Dir(1, -1)
  const TopLeftDiagonal := Dir(-1, -1)

  /** The eight checks of getNumberOfXmasAtIndex, in its order. */
  const Directions: seq<Dir> := [Horizontal, BackwardHorizontal, Vertical, BackwardsVertical,
                                 BottomRightDiagonal, BottomLeftDiagonal, TopRightDiagonal,
                                 TopLeftDiagonal]

  /** One `has*Xmas` check: `X` at (x, y), then `M`, `A`, `S` stepping along `d`. */
  predicate HasXmas(g: Grid<char>, x: int, y: int, d: Dir)
  {
    && At(g, x, y) == Some('X')
    && At(g, x + d.dx, y + d.dy) == Some('M')
    && At(g, x + 2 * d.dx, y + 2 * d.dy) == Some('A')
    && At(g, x + 3 * d.dx, y + 3 * d.dy) == Some('S')
  }

  /** A check holds exactly when the four cells that way spell XMAS, all of
      them on the grid. */
  lemma HasXmasSpells(g: Grid<char>, x: int, y: int, d: Dir)
    ensures HasXmas(g, x, y, d) <==> Spells(g, x, y, d.dx, d.dy, "XMAS")
    ensures HasXmas(g, x, y, d) ==>
              InGrid(g, x, y) && InGrid(g, x + 3 * d.dx, y + 3 * d.dy)
  {
    var w := "XMAS";
    if Spells(g, x, y, d.dx, d.dy, w) {
      assert At(g, x + 0 * d.dx, y + 0 * d.dy) == Some(w[0]);
      assert At(g, x + 1 * d.dx, y + 1 * d.dy) == Some(w[1]);
      assert At(g, x + 2 * d.dx, y + 2 * d.dy) == Some(w[2]);
      assert At(g, x + 3 * d.dx, y + 3 * d.dy) == Some(w[3]);
    }
    if HasXmas(g, x, y, d) {
      forall k | 0 <= k < |w| ensures At(g, x + k * d.dx, y + k * d.dy) == Some(w[k]) {
        if k == 0 {
        } else if k == 1 {
        } else if k == 2 {
        } else {
          assert k == 3;
        }
      }
    }
  }

  /** How many of `ds` read XMAS from (x, y). */
  function CountDirections(g: Grid<char>, x: int, y: int, ds: seq<Dir>): (n: nat)
    ensures n <= |ds|
  {
    if |ds| == 0 then 0
    else CountDirections(g, x, y, ds[..|ds| - 1]) + (if HasXmas(g, x, y, ds[|ds| - 1]) then 1 else 0)
  }

  /** getNumberOfXmasAtIndex. */
  function XmasAt(g: Grid<char>, x: int, y: int): (n: nat)
    ensures n <= 8
  {
    CountDirections(g, x, y, Directions)
  }

  /** Counting checks that hold is counting the distinct directions they hold in. */
  lemma {:induction false} CountDirectionsIsCardinality(g: Grid<char>, x: int, y: int, ds: seq<Dir>)
    requires NoDup(ds)
    ensures CountDirections(g, x, y, ds) == |set d | d in ds && HasXmas(g, x, y, d)|
  {
    if |ds| > 0 {
      var init, last := ds[..|ds| - 1], ds[|ds| - 1];
      CountDirectionsIsCardinality(g, x, y, init);
      var before := set d | d in init && HasXmas(g, x, y, d);
      var after := set d | d in ds && HasXmas(g, x, y, d);
      assert last !in init;
      assert ds == init + [last];
      if HasXmas(g, x, y, last) {
        assert after == before + {last};
      } else {
        assert after == before;
      }
    }
  }

  /** The count at a cell is the number of directions in which XMAS starts
      there; it is nonzero only on an `X`. */
  lemma XmasAtCounts(g: Grid<char>, x: int, y: int)
    ensures XmasAt(g, x, y) == |set d | d in Directions && HasXmas(g, x, y, d)|
    ensures XmasAt(g, x, y) > 0 ==> At(g, x, y) == Some('X')
  {
    CountDirectionsIsCardinality(g, x, y, Directions);
    if At(g, x, y) != Some('X') {
      assert (set d | d in Directions && HasXmas(g, x, y, d)) == {};
    }
  }

  /** What findCountOfXmas adds for the cell (x, y). */
  function XmasScore(g: Grid<char>): (int, int) -> nat
  {
    (x: int, y: int) => if At(g, x, y) == Some('X') then XmasAt(g, x, y) else 0
  }

  /** The answer of challenge 1: the sum over the columns of the first row and
      over every row. */
  function CountXmas(g: Grid<char>): nat
  {
    SumScan(XmasScore(g), Width(g), |g|)
  }

  /** findCountOfXmas: the loops over `x` and `y`. */
  method FindCountOfXmas(data: string) returns (count: nat)
    ensures count == CountXmas(Lines(data))
  {
    var lines := Lines(data);
    var score := XmasScore(lines);
    count := 0;
    var x := 0;
    while x < |lines[0]|
      invariant 0 <= x <= |lines[0]|
      invariant count == SumScan(score, x, |lines|)
    {
      var y := 0;
      while y < |lines|
        invariant 0 <= y <= |lines|
        invariant count == SumScan(score, x, |lines|) + SumColumn(score, x, y)
      {
        var current := At(lines, x, y);
        if current == Some('X') {
          count := count + XmasAt(lines, x, y);
        }
        y := y + 1;
      }
      x := x + 1;
    }
  }

  /** Only `X` cells contribute: a grid without `X` counts 0. */
  lemma NoXCountsZero(g: Grid<char>)
    requires forall y, x :: 0 <= y < |g| && 0 <= x < |g[y]| ==> g[y][x] != 'X'
    ensures CountXmas(g) == 0
  {
    SumScanZero(XmasScore(g), Width(g), |g|);
  }

  /** At most eight words start at each cell. */
  lemma CountXmasBound(g: Grid<char>)
    ensures CountXmas(g) <= 8 * |g| * Width(g)
  {
    SumScanBound(XmasScore(g), Width(g), |g|, 8);
  }

  /** The one-row grids `XMAS` and `SAMX` hold one word each. */
  lemma SingleRowWords()
    ensures CountXmas(["XMAS"]) == 1
    ensures CountXmas(["SAMX"]) == 1
  {
    OneRowCount("XMAS", 0, Horizontal);
    OneRowCount("SAMX", 3, BackwardHorizontal);
  }

  /** A one-row grid whose only `X` is at `x0` and reads XMAS only along `d0`. */
  lemma OneRowCount(row: string, x0: nat, d0: Dir)
    requires |row| == 4 && x0 < 4 && row[x0] == 'X'
    requires forall i :: 0 <= i < 4 && i != x0 ==> row[i] != 'X'
    requires HasXmas([row], x0, 0, d0) && d0 in Directions
    requires forall d :: d in Directions && d != d0 ==> !HasXmas([row], x0, 0, d)
    ensures CountXmas([row]) == 1
  {
    var g := [row];
    var score := XmasScore(g);
    XmasAtCounts(g, x0, 0);
    assert (set d | d in Directions && HasXmas(g, x0, 0, d)) == {d0};
    forall i | 0 <= i < 4 ensures SumColumn(score, i, 1) == if i == x0 then 1 else 0 {
      assert SumColumn(score, i, 1) == score(i, 0);
    }
    assert SumScan(score, 4, 1) == SumColumn(score, 0, 1) + SumColumn(score, 1, 1)
                                 + SumColumn(score, 2, 1) + SumColumn(score, 3, 1);
  }

  // ---------------------------------------------------------------------
  // Challenge 2

  /** `M` above left, `S` below right of the `A`. */
  predicate HasBottomRightDiagonalMas(g: Grid<char>, x: int, y: int)
  {
    At(g, x - 1, y - 1) == Some('M') && At(g, x + 1, y + 1) == Some('S')
  }

  /** `M` above right, `S` below left. */
  predicate HasBottomLeftDiagonalMas(g: Grid<char>, x: int, y: int)
  {
    At(g, x + 1, y - 1) == Some('M') && At(g, x - 1, y + 1) == Some('S')
  }

  /** `M` below left, `S` above right. */
  predicate HasTopRightDiagonalMas(g: Grid<char>, x: int, y: int)
  {
    At(g, x - 1, y + 1) == Some('M') && At(g, x + 1, y - 1) == Some('S')
  }

  /** `M` below right, `S` above left. */
  predicate HasTopLeftDiagonalMas(g: Grid<char>, x: int, y: int)
  {
    At(g, x + 1, y + 1) == Some('M') && At(g, x - 1, y - 1) == Some('S')
  }

  /** isMasX: a MAS on the `\` diagonal and one on the `/` diagonal. */
  predicate IsMasX(g: Grid<char>, x: int, y: int)
  {
    && (HasBottomRightDiagonalMas(g, x, y) || HasTopLeftDiagonalMas(g, x, y))
    && (HasBottomLeftDiagonalMas(g, x, y) || HasTopRightDiagonalMas(g, x, y))
  }

  /** With the `A` at (x, y), an X-MAS is MAS read along each diagonal
      through it, in either direction. */
  lemma MasXSpells(g: Grid<char>, x: int, y: int)
    requires At(g, x, y) == Some('A')
    ensures IsMasX(g, x, y) <==>
              && (Spells(g, x - 1, y - 1, 1, 1, "MAS") || Spells(g, x + 1, y + 1, -1, -1, "MAS"))
              && (Spells(g, x + 1, y - 1, -1, 1, "MAS") || Spells(g, x - 1, y + 1, 1, -1, "MAS"))
  {
    MasSpells(g, x, y, -1, -1);
    MasSpells(g, x, y, 1, 1);
    MasSpells(g, x, y, 1, -1);
    MasSpells(g, x, y, -1, 1);
  }

  /** MAS through the `A` at (x, y), starting at (x + mx, y + my). */
  lemma MasSpells(g: Grid<char>, x: int, y: int, mx: int, my: int)
    requires At(g, x, y) == Some('A')
    ensures Spells(g, x + mx, y + my, -mx, -my, "MAS") <==>
              At(g, x + mx, y + my) == Some('M') && At(g, x - mx, y - my) == Some('S')
  {
    var w := "MAS";
    assert x + mx + 1 * -mx == x && y + my + 1 * -my == y;
    assert x + mx + 2 * -mx == x - mx && y + my + 2 * -my == y - my;
    if At(g, x + mx, y + my) == Some('M') && At(g, x - mx, y - my) == Some('S') {
      forall k | 0 <= k < |w| ensures At(g, x + mx + k * -mx, y + my + k * -my) == Some(w[k]) {
        if k == 0 {
        } else if k == 1 {
        } else {
          assert k == 2;
        }
      }
    }
    if Spells(g, x + mx, y + my, -mx, -my, w) {
      assert At(g, x + mx + 0 * -mx, y + my + 0 * -my) == Some(w[0]);
      assert At(g, x + mx + 2 * -mx, y + my + 2 * -my) == Some(w[2]);
    }
  }

  /** The two checks for one diagonal exclude each other: the corner cell
      cannot hold both `M` and `S`. */
  lemma DiagonalChecksExclusive(g: Grid<char>, x: int, y: int)
    ensures !(HasBottomRightDiagonalMas(g, x, y) && HasTopLeftDiagonalMas(g, x, y))
    ensures !(HasBottomLeftDiagonalMas(g, x, y) && HasTopRightDiagonalMas(g, x, y))
  {
  }

  /** An `A` on the border of a rectangular grid misses a diagonal neighbour. */
  lemma BorderNeverCounts(g: Grid<char>, x: int, y: int)
    requires IsRect(g)
    requires x <= 0 || y <= 0 || y + 1 >= |g| || x + 1 >= Width(g)
    ensures !IsMasX(g, x, y)
  {
  }

  /** What findCountOfMasXs adds for the cell (x, y). */
  function MasXScore(g: Grid<char>): (int, int) -> nat
  {
    (x: int, y: int) => if At(g, x, y) == Some('A') && IsMasX(g, x, y) then 1 else 0
  }

  /** Each cell adds 0 or 1, and only an `A` adds anything. */
  lemma MasXScoreRange(g: Grid<char>, x: int, y: int)
    ensures MasXScore(g)(x, y) <= 1
    ensures MasXScore(g)(x, y) == 1 <==> At(g, x, y) == Some('A') && IsMasX(g, x, y)
  {
  }

  /** The answer of challenge 2. */
  function CountMasX(g: Grid<char>): nat
  {
    SumScan(MasXScore(g), Width(g), |g|)
  }

  /** findCountOfMasXs: the loops over `x` and `y`. */
  method FindCountOfMasXs(data: string) returns (count: nat)
    ensures count == CountMasX(Lines(data))
  {
    var lines := Lines(data);
    var score := MasXScore(lines);
    count := 0;
    var x := 0;
    while x < |lines[0]|
      invariant 0 <= x <= |lines[0]|
      invariant count == SumScan(score, x, |lines|)
    {
      var y := 0;
      while y < |lines|
        invariant 0 <= y <= |lines|
        invariant count == SumScan(score, x, |lines|) + SumColumn(score, x, y)
      {
        var current := At(lines, x, y);
        if current == Some('A') {
          count := count + (if IsMasX(lines, x, y) then 1 else 0);
        }
        y := y + 1;
      }
      x := x + 1;
    }
  }

  /** At most one X-MAS per cell, and none in a grid without `A`. */
  lemma CountMasXBounds(g: Grid<char>)
    ensures CountMasX(g) <= |g| * Width(g)
    ensures (forall y, x :: 0 <= y < |g| && 0 <= x < |g[y]| ==> g[y][x] != 'A') ==> CountMasX(g) == 0
  {
    SumScanBound(MasXScore(g), Width(g), |g|, 1);
    if forall y, x :: 0 <= y < |g| && 0 <= x < |g[y]| ==> g[y][x] != 'A' {
      SumScanZero(MasXScore(g), Width(g), |g|);
    }
  }
}
