/**
 * Grid arithmetic of the board: a square of `n` by `n` tiles addressed by
 * one row-major index in [0, n*n).  Everything here is a pure function of
 * the side length `n` (the game's `tilesLine`) and of indices.
 */
module Grid {

  /** Row of an index, `Math.floor(index / tilesLine)`.  Dafny's `/` on
    * `int` with a positive divisor rounds towards minus infinity, exactly
    * as `Math.floor` of the quotient does, also for negative indices. */
  function Row(n: int, i: int): (r: int)
    requires n > 0
    ensures 0 <= i ==> 0 <= r
  {
    i / n
  }

  /** Column of an index, `index % tilesLine`.  The source only takes the
    * column of in-grid (non-negative) indices, where JavaScript's `%` and
    * Dafny's agree. */
  function Col(n: int, i: int): (c: int)
    requires n > 0
    ensures 0 <= c < n
  {
    i % n
  }

  // ---------------------------------------------------------------------
  // Row/column decomposition
  // ---------------------------------------------------------------------

  /** `d * n >= n` for a positive factor `d`: the step that pins down
    * quotient and remainder. */
  lemma MulAtLeast(d: int, n: int)
    requires d >= 1 && n > 0
    ensures d * n >= n
  {
  }

  /** The tile at row `r`, column `c` has index `r * n + c`, and that index
    * gives back `r` and `c`. */
  lemma CellRowCol(n: int, r: int, c: int)
    requires n > 0 && 0 <= c < n
    ensures Row(n, r * n + c) == r && Col(n, r * n + c) == c
  {
    var i := r * n + c;
    var q, m := i / n, i % n;
    assert i == q * n + m && 0 <= m < n;
    var d := q - r;
    assert d * n == c - m;
    if d > 0 {
      MulAtLeast(d, n);
    } else if d < 0 {
      MulAtLeast(-d, n);
    }
  }

  /** Rows and columns in [0, n) are exactly the in-grid indices. */
  lemma CellInGrid(n: int, r: int, c: int)
    requires n > 0 && 0 <= c < n
    ensures 0 <= r * n + c < n * n <==> 0 <= r < n
  {
    if r < 0 {
      assert r * n <= -n;
    } else if r >= n {
      assert r * n >= n * n;
    } else {
      assert r * n <= (n - 1) * n;
    }
  }

  /** Grid arithmetic round trip: for an in-grid index, `getRow` and
    * `getCol` both lie in [0, n) and `getRow(i) * n + getCol(i) == i`. */
  lemma RowColRoundTrip(n: int, i: int)
    requires n > 0 && 0 <= i < n * n
    ensures 0 <= Row(n, i) < n && 0 <= Col(n, i) < n
    ensures Row(n, i) * n + Col(n, i) == i
  {
    CellInGrid(n, Row(n, i), Col(n, i));
  }

  /** An index is in the grid exactly when its row is in [0, n): the test
    * `checkColNeighbours` applies to a vertical step. */
  lemma RowInside(n: int, x: int)
    requires n > 0
    ensures 0 <= Row(n, x) < n <==> 0 <= x < n * n
  {
    CellInGrid(n, Row(n, x), Col(n, x));
  }

  // ---------------------------------------------------------------------
  // The eight-neighbourhood counted by setNearBombs
  // ---------------------------------------------------------------------

  /** The distinct in-grid tiles whose row and column both differ from
    * those of `i` by at most one: the tiles whose mines a tile counts. */
  ghost function NeighbourSet(n: int, i: int): set<int>
    requires n > 0
  {
    set j | 0 <= j < n * n && j != i
      && -1 <= Row(n, j) - Row(n, i) <= 1
      && -1 <= Col(n, j) - Col(n, i) <= 1
  }

  /** The eight candidate indices of `setNearBombs`: each offset to the
    * row above or below, or to the column left or right, is clipped to 0
    * on the edge of the board, so that on an edge several candidates fall
    * on the tile itself or coincide. */
  function PointsToCheck(n: int, index: int): (r: seq<int>)
    requires n > 0
    ensures |r| == 8
    ensures forall j :: j in r ==> index - n - 1 <= j <= index + n + 1
  {
    var row := Row(n, index);
    var col := Col(n, index);
    var up := if row > 0 then -n else 0;
    var down := if row < n - 1 then n else 0;
    var left := if col > 0 then -1 else 0;
    var right := if col < n - 1 then 1 else 0;
    [index + left, index + left + up, index + up, index + right + up,
     index + right, index + right + down, index + down, index + left + down]
  }

  /** `s.filter(i => i !== x)`. */
  function Without(s: seq<int>, x: int): (r: seq<int>)
    ensures forall y :: y in r <==> y in s && y != x
  {
    if s == [] then []
    else if s[0] == x then Without(s[1..], x)
    else [s[0]] + Without(s[1..], x)
  }

  /** `Array.from(new Set(s))`: the elements of `s` in order of first
    * occurrence, each once. */
  function Dedup(s: seq<int>): (r: seq<int>)
    ensures forall y :: y in r <==> y in s
    ensures forall a, b :: 0 <= a < b < |r| ==> r[a] != r[b]
  {
    if s == [] then []
    else
      var d := Dedup(s[..|s| - 1]);
      assert forall y :: y in s <==> y in s[..|s| - 1] || y == s[|s| - 1];
      if s[|s| - 1] in d then d else d + [s[|s| - 1]]
  }

  /** The list of indices `setNearBombs` visits for one tile. */
  function CheckedPoints(n: int, index: int): (r: seq<int>)
    requires n > 0
    ensures forall j :: j in r <==> j in PointsToCheck(n, index) && j != index
    ensures forall a, b :: 0 <= a < b < |r| ==> r[a] != r[b]
  {
    Dedup(Without(PointsToCheck(n, index), index))
  }

  /** The tile `dr` rows and `dc` columns away from an in-grid tile, when
    * that row and column are on the board, is in the grid and has that row
    * and column. */
  lemma Offset(n: int, index: int, dr: int, dc: int)
    requires n > 0 && 0 <= index < n * n
    requires -1 <= dr <= 1 && -1 <= dc <= 1
    requires 0 <= Row(n, index) + dr < n && 0 <= Col(n, index) + dc < n
    ensures 0 <= index + dr * n + dc < n * n
    ensures Row(n, index + dr * n + dc) == Row(n, index) + dr
    ensures Col(n, index + dr * n + dc) == Col(n, index) + dc
  {
    var r, c := Row(n, index), Col(n, index);
    RowColRoundTrip(n, index);
    assert index + dr * n + dc == (r + dr) * n + (c + dc);
    CellRowCol(n, r + dr, c + dc);
    CellInGrid(n, r + dr, c + dc);
  }

  /** Every candidate of `setNearBombs` is the tile itself or one of its
    * in-grid neighbours. */
  lemma PointsInNeighbourhood(n: int, index: int)
    requires n > 0 && 0 <= index < n * n
    ensures forall j :: j in PointsToCheck(n, index) && j != index ==> j in NeighbourSet(n, index)
  {
    var r, c := Row(n, index), Col(n, index);
    RowColRoundTrip(n, index);
    var u := if r > 0 then -1 else 0;
    var d := if r < n - 1 then 1 else 0;
    var l := if c > 0 then -1 else 0;
    var rt := if c < n - 1 then 1 else 0;
    Shift(n, 0, u);
    Shift(n, 0, d);
    Offset(n, index, 0, l);
    Offset(n, index, u, l);
    Offset(n, index, u, 0);
    Offset(n, index, u, rt);
    Offset(n, index, 0, rt);
    Offset(n, index, d, rt);
    Offset(n, index, d, 0);
    Offset(n, index, d, l);
  }

  /** Multiplying a row offset in {-1, 0, 1} by the side length. */
  lemma Shift(n: int, r: int, dr: int)
    requires -1 <= dr <= 1
    ensures (r + dr) * n == r * n + dr * n
    ensures dr == -1 ==> dr * n == -n
    ensures dr == 1 ==> dr * n == n
    ensures dr == 0 ==> dr * n == 0
  {
  }

  /** Every in-grid neighbour of a tile is one of its candidates. */
  lemma NeighbourhoodInPoints(n: int, index: int, j: int)
    requires n > 0 && 0 <= index < n * n && j in NeighbourSet(n, index)
    ensures j in PointsToCheck(n, index)
  {
    var r, c := Row(n, index), Col(n, index);
    var rj, cj := Row(n, j), Col(n, j);
    RowColRoundTrip(n, index);
    RowColRoundTrip(n, j);
    var dr, dc := rj - r, cj - c;
    assert -1 <= dr <= 1 && -1 <= dc <= 1;
    Shift(n, r, dr);
    assert j == index + dr * n + dc;
    NeighbourByOffset(n, index, j, dr, dc);
  }

  /** The neighbour at row offset `dr` and column offset `dc` is the
    * candidate built from the (unclipped) offsets of that direction. */
  lemma NeighbourByOffset(n: int, index: int, j: int, dr: int, dc: int)
    requires n > 0 && 0 <= index < n * n
    requires -1 <= dr <= 1 && -1 <= dc <= 1 && (dr != 0 || dc != 0)
    requires 0 <= Row(n, index) + dr < n && 0 <= Col(n, index) + dc < n
    requires j == index + dr * n + dc
    ensures j in PointsToCheck(n, index)
  {
    var pts := PointsToCheck(n, index);
    Shift(n, 0, dr);
    if dr == -1 {
      if dc == -1 { assert j == pts[1]; }
      else if dc == 0 { assert j == pts[2]; }
      else { assert j == pts[3]; }
    } else if dr == 0 {
      if dc == -1 { assert j == pts[0]; }
      else { assert j == pts[4]; }
    } else {
      if dc == -1 { assert j == pts[7]; }
      else if dc == 0 { assert j == pts[6]; }
      else { assert j == pts[5]; }
    }
  }

  /** Clipping the offsets and dropping the tile itself leaves exactly the
    * in-grid eight-neighbourhood: no wrap-around at the left and right
    * edges, nothing outside the board at the top and bottom. */
  lemma PointsAreNeighbours(n: int, index: int)
    requires n > 0 && 0 <= index < n * n
    ensures forall j :: j in CheckedPoints(n, index) <==> j in NeighbourSet(n, index)
  {
    PointsInNeighbourhood(n, index);
    forall j | j in NeighbourSet(n, index)
      ensures j in CheckedPoints(n, index)
    {
      NeighbourhoodInPoints(n, index, j);
    }
  }

  /** On a 10 x 10 board the top-left corner checks exactly tiles 1, 10
    * and 11. */
  lemma TopLeftCorner()
    ensures NeighbourSet(10, 0) == {1, 10, 11}
    ensures forall j :: j in CheckedPoints(10, 0) <==> j in {1, 10, 11}
  {
    CellRowCol(10, 0, 0);
    CellRowCol(10, 0, 1);
    CellRowCol(10, 1, 0);
    CellRowCol(10, 1, 1);
    forall j | j in NeighbourSet(10, 0)
      ensures j in {1, 10, 11}
    {
      RowColRoundTrip(10, j);
    }
    PointsAreNeighbours(10, 0);
  }

  /** On a 10 x 10 board the top-right corner checks exactly tiles 8, 18
    * and 19; in particular not 10, which would wrap around to the next
    * row. */
  lemma TopRightCorner()
    ensures NeighbourSet(10, 9) == {8, 18, 19}
    ensures forall j :: j in CheckedPoints(10, 9) <==> j in {8, 18, 19}
  {
    CellRowCol(10, 0, 9);
    CellRowCol(10, 0, 8);
    CellRowCol(10, 1, 8);
    CellRowCol(10, 1, 9);
    forall j | j in NeighbourSet(10, 9)
      ensures j in {8, 18, 19}
    {
      RowColRoundTrip(10, j);
    }
    PointsAreNeighbours(10, 9);
  }

  // ---------------------------------------------------------------------
  // The four-neighbour steps of the flood fill
  // ---------------------------------------------------------------------

  /** `checkColNeighbours`' test on `newId = id + tilesLine * upDown`. */
  function ColInside(n: int, x: int): (inside: bool)
    requires n > 0
    ensures inside <==> 0 <= x < n * n
  {
    RowInside(n, x);
    0 <= Row(n, x) < n
  }

  /** `checkRowNeighbours`' test on `newId = id + direction`. */
  function SameRow(n: int, a: int, b: int): (same: bool)
    requires n > 0
    ensures same && 0 <= a < n * n ==> 0 <= b < n * n
  {
    RowInside(n, a);
    RowInside(n, b);
    Row(n, a) == Row(n, b)
  }

  /** One step of the cascade from `a` to `b`, as `checkNeighbours` takes
    * it: up, down, right or left, each behind its own guard. */
  function Step(n: int, a: int, b: int): (step: bool)
    requires n > 0
    ensures step && 0 <= a < n * n ==> 0 <= b < n * n && b != a
  {
    (b == a - n && ColInside(n, b)) || (b == a + n && ColInside(n, b))
    || (b == a + 1 && SameRow(n, a, b)) || (b == a - 1 && SameRow(n, a, b))
  }

  /** The tiles in the same column and an adjacent row, or in the same row
    * and an adjacent column, of an in-grid tile. */
  predicate Adjacent(n: int, a: int, b: int)
    requires n > 0
  {
    0 <= b < n * n &&
    ((Col(n, b) == Col(n, a) && (Row(n, b) == Row(n, a) - 1 || Row(n, b) == Row(n, a) + 1)) ||
     (Row(n, b) == Row(n, a) && (Col(n, b) == Col(n, a) - 1 || Col(n, b) == Col(n, a) + 1)))
  }

  /** The tiles above and below an in-grid tile keep its column, have the
    * row before and after it, and are on the board exactly when that row
    * is. */
  lemma VerticalTargets(n: int, a: int)
    requires n > 0 && 0 <= a < n * n
    ensures Row(n, a - n) == Row(n, a) - 1 && Col(n, a - n) == Col(n, a)
    ensures Row(n, a + n) == Row(n, a) + 1 && Col(n, a + n) == Col(n, a)
    ensures 0 <= a - n < n * n <==> 0 <= Row(n, a) - 1 < n
    ensures 0 <= a + n < n * n <==> 0 <= Row(n, a) + 1 < n
  {
    var r, c := Row(n, a), Col(n, a);
    RowColRoundTrip(n, a);
    assert a - n == (r - 1) * n + c;
    assert a + n == (r + 1) * n + c;
    CellRowCol(n, r - 1, c);
    CellRowCol(n, r + 1, c);
    CellInGrid(n, r - 1, c);
    CellInGrid(n, r + 1, c);
  }

  /** The tile to the right of an in-grid tile is the next column of the
    * same row, unless the tile is on the right edge: then it is the first
    * tile of the next row. */
  lemma RightTarget(n: int, a: int)
    requires n > 0 && 0 <= a < n * n
    ensures Col(n, a) + 1 < n ==> Row(n, a + 1) == Row(n, a) && Col(n, a + 1) == Col(n, a) + 1
    ensures Col(n, a) + 1 == n ==> Row(n, a + 1) == Row(n, a) + 1
  {
    var r, c := Row(n, a), Col(n, a);
    RowColRoundTrip(n, a);
    if c + 1 < n {
      CellRowCol(n, r, c + 1);
    } else {
      assert a + 1 == (r + 1) * n + 0;
      CellRowCol(n, r + 1, 0);
    }
  }

  /** The tile to the left of an in-grid tile is the previous column of the
    * same row, unless the tile is on the left edge: then it is the last
    * tile of the previous row. */
  lemma LeftTarget(n: int, a: int)
    requires n > 0 && 0 <= a < n * n
    ensures Col(n, a) > 0 ==> Row(n, a - 1) == Row(n, a) && Col(n, a - 1) == Col(n, a) - 1
    ensures Col(n, a) == 0 ==> Row(n, a - 1) == Row(n, a) - 1
  {
    var r, c := Row(n, a), Col(n, a);
    RowColRoundTrip(n, a);
    if c > 0 {
      CellRowCol(n, r, c - 1);
    } else {
      assert a - 1 == (r - 1) * n + (n - 1);
      CellRowCol(n, r - 1, n - 1);
    }
  }

  /** A guarded step from an in-grid tile lands on an adjacent tile. */
  lemma StepIsAdjacent(n: int, a: int, b: int)
    requires n > 0 && 0 <= a < n * n && Step(n, a, b)
    ensures Adjacent(n, a, b)
  {
    VerticalTargets(n, a);
    RightTarget(n, a);
    LeftTarget(n, a);
    RowInside(n, b);
    RowColRoundTrip(n, a);
  }

  /** Every adjacent tile is one guarded step away. */
  lemma AdjacentIsStep(n: int, a: int, b: int)
    requires n > 0 && 0 <= a < n * n && Adjacent(n, a, b)
    ensures Step(n, a, b)
  {
    var r, c := Row(n, a), Col(n, a);
    RowColRoundTrip(n, a);
    RowColRoundTrip(n, b);
    var dr := Row(n, b) - r;
    Shift(n, r, dr);
    assert b == a + dr * n + (Col(n, b) - c);
    VerticalTargets(n, a);
    RightTarget(n, a);
    LeftTarget(n, a);
  }

  /** From an in-grid tile, the guarded steps reach exactly the adjacent
    * tiles: the cascade never leaves [0, n*n) and never wraps around an
    * edge. */
  lemma StepCharacterised(n: int, a: int, b: int)
    requires n > 0 && 0 <= a < n * n
    ensures Step(n, a, b) <==> Adjacent(n, a, b)
  {
    if Step(n, a, b) {
      StepIsAdjacent(n, a, b);
    }
    if Adjacent(n, a, b) {
      AdjacentIsStep(n, a, b);
    }
  }

  /** A cascade step lands on one of the tiles whose mines the source
    * counts. */
  lemma StepIsNeighbour(n: int, a: int, b: int)
    requires n > 0 && 0 <= a < n * n && Step(n, a, b)
    ensures b in NeighbourSet(n, a)
  {
    StepCharacterised(n, a, b);
  }
}
