/**
 * The playing field of one half of the display: an occupancy grid of `ROWS` rows and `cols` columns
 * (row 0 at the top) with a parallel colour grid. This module holds the grid mechanics of
 * `TetrisGame`: the legality test, stamping a piece, dropping it, the column statistics and clearing
 * full rows.
 */
module Board {
  import opened Display
  import opened Pieces

  /** `ROWS` rows of `width` cells each. */
  predicate Shaped<T>(g: seq<seq<T>>, width: int)
  {
    |g| == ROWS && forall i :: 0 <= i < |g| ==> |g[i]| == width
  }

  /** The cell a block lands on is inside the columns, not below the floor, and above the board or free. */
  predicate CellFree(field: seq<seq<bool>>, cols: int, nr: int, nc: int)
    requires Shaped(field, cols)
  {
    0 <= nc < cols && nr < ROWS && (nr < 0 || !field[nr][nc])
  }

  /** `can_place`: every block of the piece anchored at (row, col) lands on a free cell. */
  function CanPlace(field: seq<seq<bool>>, cols: int, bs: Shape, row: int, col: int): (ok: bool)
    requires Shaped(field, cols)
    ensures ok <==> forall k :: 0 <= k < |bs| ==> CellFree(field, cols, row + bs[k].0, col + bs[k].1)
  {
    if bs == [] then true
    else
      var nr, nc := row + bs[0].0, col + bs[0].1;
      assert forall k :: 1 <= k < |bs| ==> bs[k] == bs[1..][k - 1];
      if nc < 0 || nc >= cols || nr >= ROWS then false
      else if nr >= 0 && field[nr][nc] then false
      else CanPlace(field, cols, bs[1..], row, col)
  }

  /** A piece that fits puts its first block above the floor. */
  lemma CanPlaceFloor(field: seq<seq<bool>>, cols: int, bs: Shape, row: int, col: int)
    requires Shaped(field, cols) && |bs| > 0 && CanPlace(field, cols, bs, row, col)
    ensures row + bs[0].0 < ROWS
  {
    assert CellFree(field, cols, row + bs[0].0, col + bs[0].1);
  }

  /** Every block of the piece falls inside the columns 0 .. cols-1. */
  predicate ColumnsFit(bs: Shape, col: int, cols: int)
  {
    forall k :: 0 <= k < |bs| ==> 0 <= col + bs[k].1 < cols
  }

  lemma CanPlaceColumnsFit(field: seq<seq<bool>>, cols: int, bs: Shape, row: int, col: int)
    requires Shaped(field, cols) && CanPlace(field, cols, bs, row, col)
    ensures ColumnsFit(bs, col, cols)
  {
    assert forall k :: 0 <= k < |bs| ==> CellFree(field, cols, row + bs[k].0, col + bs[k].1);
  }

  /** Some block of the piece anchored at (row, col) covers cell (i, j). */
  predicate Covers(bs: Shape, row: int, col: int, i: int, j: int)
  {
    exists k :: 0 <= k < |bs| && row + bs[k].0 == i && col + bs[k].1 == j
  }

  /** Covering by the first k + 1 blocks is covering by the first k or by block k. */
  lemma CoversSnoc(bs: Shape, k: int, row: int, col: int)
    requires 0 <= k < |bs|
    ensures forall i, j :: Covers(bs[..k + 1], row, col, i, j) <==>
              Covers(bs[..k], row, col, i, j) || (i == row + bs[k].0 && j == col + bs[k].1)
  {
    forall i, j ensures Covers(bs[..k + 1], row, col, i, j) <==>
                        Covers(bs[..k], row, col, i, j) || (i == row + bs[k].0 && j == col + bs[k].1) {
      if Covers(bs[..k], row, col, i, j) {
        var m :| 0 <= m < k && row + bs[..k][m].0 == i && col + bs[..k][m].1 == j;
        assert bs[..k + 1][m] == bs[m];
      }
      if i == row + bs[k].0 && j == col + bs[k].1 {
        assert bs[..k + 1][k] == bs[k];
      }
      if Covers(bs[..k + 1], row, col, i, j) {
        var m :| 0 <= m < k + 1 && row + bs[..k + 1][m].0 == i && col + bs[..k + 1][m].1 == j;
        if m < k {
          assert bs[..k][m] == bs[m];
        }
      }
    }
  }

  /** Set cell (i, j) to `v`. */
  function SetCell<T>(g: seq<seq<T>>, i: int, j: int, v: T): seq<seq<T>>
    requires 0 <= i < |g| && 0 <= j < |g[i]|
  {
    g[i := g[i][j := v]]
  }

  /**
   * The blocks of the piece, in order, written into the grid with value `v`; blocks above the board
   * (row < 0) are skipped, as in `simulate` and `lock_piece`.
   */
  function Stamp<T>(g: seq<seq<T>>, cols: int, bs: Shape, row: int, col: int, v: T): (r: seq<seq<T>>)
    requires Shaped(g, cols) && ColumnsFit(bs, col, cols)
    ensures Shaped(r, cols)
    decreases |bs|
  {
    if bs == [] then g
    else
      var g' := Stamp(g, cols, bs[..|bs| - 1], row, col, v);
      var nr, nc := row + bs[|bs| - 1].0, col + bs[|bs| - 1].1;
      if 0 <= nr < ROWS then SetCell(g', nr, nc, v) else g'
  }

  /** After stamping, a cell holds `v` exactly when a block covers it and its old value otherwise. */
  lemma {:induction false} StampCell<T>(g: seq<seq<T>>, cols: int, bs: Shape, row: int, col: int, v: T, i: int, j: int)
    requires Shaped(g, cols) && ColumnsFit(bs, col, cols)
    requires 0 <= i < ROWS && 0 <= j < cols
    ensures Stamp(g, cols, bs, row, col, v)[i][j] == if Covers(bs, row, col, i, j) then v else g[i][j]
    decreases |bs|
  {
    if bs != [] {
      var init := bs[..|bs| - 1];
      StampCell(g, cols, init, row, col, v, i, j);
      var last := bs[|bs| - 1];
      if Covers(bs, row, col, i, j) && !Covers(init, row, col, i, j) {
        var k :| 0 <= k < |bs| && row + bs[k].0 == i && col + bs[k].1 == j;
        if k < |bs| - 1 {
          assert init[k] == bs[k];
        }
      }
      if Covers(init, row, col, i, j) {
        var k :| 0 <= k < |init| && row + init[k].0 == i && col + init[k].1 == j;
        assert bs[k] == init[k];
      }
      if row + last.0 == i && col + last.1 == j {
        assert Covers(bs, row, col, i, j) by {
          assert bs[|bs| - 1] == last;
        }
      }
    }
  }

  /**
   * The row a piece dropped from `row` comes to rest on: it moves down while it fits one row lower,
   * as the `while self.can_place(blocks, row + 1, col)` loop of `simulate` does.
   */
  function LandingRow(field: seq<seq<bool>>, cols: int, bs: Shape, row: int, col: int): (r: int)
    requires Shaped(field, cols) && |bs| > 0
    ensures row <= r && !CanPlace(field, cols, bs, r + 1, col)
    ensures forall k :: row < k <= r ==> CanPlace(field, cols, bs, k, col)
    decreases ROWS - row - bs[0].0
  {
    if CanPlace(field, cols, bs, row + 1, col) then
      CanPlaceFloor(field, cols, bs, row + 1, col);
      var r := LandingRow(field, cols, bs, row + 1, col);
      FitsDownStep(field, cols, bs, row, r, col);
      r
    else row
  }

  /** Fitting one row lower and at every row from there on down to `r` is fitting at every row down to `r`. */
  lemma FitsDownStep(field: seq<seq<bool>>, cols: int, bs: Shape, row: int, r: int, col: int)
    requires Shaped(field, cols) && CanPlace(field, cols, bs, row + 1, col)
    requires forall k :: row + 1 < k <= r ==> CanPlace(field, cols, bs, k, col)
    ensures forall k :: row < k <= r ==> CanPlace(field, cols, bs, k, col)
  {
  }

  // ---------------------------------------------------------------------------------------------
  // Column statistics of `simulate` and `max_height`

  /** Column c of the grid, top to bottom. */
  function Column(g: seq<seq<bool>>, cols: int, c: int): (s: seq<bool>)
    requires Shaped(g, cols) && 0 <= c < cols
    ensures |s| == ROWS
  {
    seq(ROWS, r requires 0 <= r < ROWS => g[r][c])
  }

  /** The index of the topmost occupied cell, or |s| when there is none. */
  function FirstOccupied(s: seq<bool>): (f: nat)
    ensures f <= |s|
    ensures forall i :: 0 <= i < f ==> !s[i]
    ensures f < |s| ==> s[f]
  {
    if s == [] then 0
    else if s[0] then 0
    else
      var f := FirstOccupied(s[1..]);
      assert forall i :: 1 <= i < f + 1 ==> s[i] == s[1..][i - 1];
      1 + f
  }

  /** The height of a column: `ROWS - r` for its topmost occupied row r, 0 for an empty column. */
  function Height(s: seq<bool>): nat
  {
    |s| - FirstOccupied(s)
  }

  /** The number of free cells. */
  function CountFree(s: seq<bool>): (n: nat)
    ensures n <= |s|
  {
    if s == [] then 0 else CountFree(s[..|s| - 1]) + (if s[|s| - 1] then 0 else 1)
  }

  /** The holes of a column: free cells below its topmost occupied cell. */
  function Holes(s: seq<bool>): nat
  {
    CountFree(s[FirstOccupied(s)..])
  }

  /** A column is empty exactly when its height is 0; otherwise its top cell is at row |s| - height. */
  lemma HeightSpec(s: seq<bool>)
    ensures Height(s) <= |s|
    ensures Height(s) == 0 <==> forall i :: 0 <= i < |s| ==> !s[i]
    ensures Height(s) > 0 ==> s[|s| - Height(s)] && forall i :: 0 <= i < |s| - Height(s) ==> !s[i]
    ensures Holes(s) <= Height(s)
    ensures Height(s) == 0 ==> Holes(s) == 0
  {
  }

  /** How the scan of `simulate` extends from the first r cells of a column to the first r + 1. */
  lemma ScanStep(s: seq<bool>, r: nat)
    requires r < |s|
    ensures FirstOccupied(s[..r + 1]) ==
              if FirstOccupied(s[..r]) < r then FirstOccupied(s[..r]) else if s[r] then r else r + 1
    ensures Holes(s[..r + 1]) ==
              Holes(s[..r]) + if FirstOccupied(s[..r]) < r && !s[r] then 1 else 0
  {
    var p, q := s[..r], s[..r + 1];
    var f, g := FirstOccupied(p), FirstOccupied(q);
    assert forall i :: 0 <= i < r ==> p[i] == q[i];
    if f < r {
      assert q[f];
      assert g == f;
      assert q[g..][..|q[g..]| - 1] == p[f..];
    } else if s[r] {
      assert q[r];
      assert g == r;
      assert q[g..] == [true];
      assert p[f..] == [];
    } else {
      assert g == r + 1;
      assert p[f..] == [];
    }
  }

  /** The height of every column, left to right. */
  function Heights(g: seq<seq<bool>>, cols: int): (hs: seq<nat>)
    requires Shaped(g, cols) && cols >= 0
    ensures |hs| == cols
  {
    seq(cols, c requires 0 <= c < cols => Height(Column(g, cols, c)))
  }

  /** The holes of columns 0 .. n-1 together. */
  function TotalHoles(g: seq<seq<bool>>, cols: int, n: int): nat
    requires Shaped(g, cols) && 0 <= n <= cols
  {
    if n == 0 then 0 else TotalHoles(g, cols, n - 1) + Holes(Column(g, cols, n - 1))
  }

  function Sum(xs: seq<nat>): nat
  {
    if xs == [] then 0 else Sum(xs[..|xs| - 1]) + xs[|xs| - 1]
  }

  /** The largest element, 0 for an empty list (the starting value of `m` in `max_height`). */
  function MaxOf(xs: seq<nat>): (m: nat)
    ensures forall i :: 0 <= i < |xs| ==> xs[i] <= m
    ensures xs != [] ==> exists i :: 0 <= i < |xs| && xs[i] == m
    ensures xs == [] ==> m == 0
  {
    if xs == [] then 0
    else
      var m := MaxOf(xs[..|xs| - 1]);
      var x := xs[|xs| - 1];
      assert forall i :: 0 <= i < |xs| - 1 ==> xs[..|xs| - 1][i] == xs[i];
      if x > m then x else m
  }

  /** The smallest element of a non-empty list. */
  function MinOf(xs: seq<nat>): (m: nat)
    requires xs != []
    ensures forall i :: 0 <= i < |xs| ==> m <= xs[i]
    ensures exists i :: 0 <= i < |xs| && xs[i] == m
  {
    if |xs| == 1 then xs[0]
    else
      var m := MinOf(xs[..|xs| - 1]);
      var x := xs[|xs| - 1];
      assert forall i :: 0 <= i < |xs| - 1 ==> xs[..|xs| - 1][i] == xs[i];
      if x < m then x else m
  }

  // ---------------------------------------------------------------------------------------------
  // Clearing full rows (`lock_piece`)

  /** `all(row)`. */
  predicate Full(row: seq<bool>)
  {
    forall j :: 0 <= j < |row| ==> row[j]
  }

  /** No row of the grid is fully occupied. */
  predicate NoFullRow(f: seq<seq<bool>>)
  {
    forall i :: 0 <= i < |f| ==> !Full(f[i])
  }

  /** An empty cell has no colour. */
  predicate ColorsConsistent(f: seq<seq<bool>>, cf: seq<seq<RGB>>, cols: int)
    requires Shaped(f, cols) && Shaped(cf, cols)
  {
    forall i, j :: 0 <= i < ROWS && 0 <= j < cols && !f[i][j] ==> cf[i][j] == BLACK
  }

  /** The rows 0 .. n-1 of `g` whose occupancy row in `f` is not full, in order. */
  function KeptRows<T>(f: seq<seq<bool>>, g: seq<seq<T>>, n: int): (r: seq<seq<T>>)
    requires 0 <= n <= |f| == |g|
    ensures |r| == n - FullCount(f, n)
  {
    if n == 0 then [] else KeptRows(f, g, n - 1) + if Full(f[n - 1]) then [] else [g[n - 1]]
  }

  /** The indices of those rows. */
  function KeptIndices(f: seq<seq<bool>>, n: int): (r: seq<int>)
    requires 0 <= n <= |f|
    ensures |r| == n - FullCount(f, n)
    ensures forall k :: 0 <= k < |r| ==> 0 <= r[k] < n
  {
    if n == 0 then [] else KeptIndices(f, n - 1) + if Full(f[n - 1]) then [] else [n - 1]
  }

  /** The number of full rows among 0 .. n-1, `cleared` in the source. */
  function FullCount(f: seq<seq<bool>>, n: int): nat
    requires 0 <= n <= |f|
  {
    if n == 0 then 0 else FullCount(f, n - 1) + if Full(f[n - 1]) then 1 else 0
  }

  /** `n` copies of `v`: `[v] * n`. */
  function Blank<T>(n: nat, v: T): (r: seq<T>)
    ensures |r| == n && forall i :: 0 <= i < n ==> r[i] == v
  {
    seq(n, _ => v)
  }

  /** The grid after `lock_piece` drops the full rows of `f` and inserts as many `blank` rows on top. */
  function ClearLines<T>(f: seq<seq<bool>>, g: seq<seq<T>>, blank: seq<T>): (r: seq<seq<T>>)
    requires |f| == |g| == ROWS
    ensures |r| == ROWS
  {
    Blank(FullCount(f, ROWS), blank) + KeptRows(f, g, ROWS)
  }

  /**
   * The kept rows are exactly the rows at the kept indices; those indices increase strictly, and an
   * index below n is kept exactly when its row is not full; kept plus cleared rows make n.
   */
  lemma {:induction false} KeptRowsSpec<T>(f: seq<seq<bool>>, g: seq<seq<T>>, n: int)
    requires 0 <= n <= |f| == |g|
    ensures |KeptRows(f, g, n)| == |KeptIndices(f, n)| == n - FullCount(f, n)
    ensures forall k :: 0 <= k < |KeptIndices(f, n)| ==>
              0 <= KeptIndices(f, n)[k] < n && KeptRows(f, g, n)[k] == g[KeptIndices(f, n)[k]]
    ensures forall k, l :: 0 <= k < l < |KeptIndices(f, n)| ==> KeptIndices(f, n)[k] < KeptIndices(f, n)[l]
    ensures forall i :: 0 <= i < n ==> (i in KeptIndices(f, n) <==> !Full(f[i]))
  {
    KeptRowsAt(f, g, n);
    KeptIndicesIncrease(f, n);
    KeptIndicesMember(f, n);
  }

  lemma {:induction false} KeptRowsAt<T>(f: seq<seq<bool>>, g: seq<seq<T>>, n: int)
    requires 0 <= n <= |f| == |g|
    ensures forall k :: 0 <= k < |KeptIndices(f, n)| ==> KeptRows(f, g, n)[k] == g[KeptIndices(f, n)[k]]
  {
    if n > 0 {
      KeptRowsAt(f, g, n - 1);
      var ki, kr := KeptIndices(f, n - 1), KeptRows(f, g, n - 1);
      if Full(f[n - 1]) {
        assert KeptIndices(f, n) == ki && KeptRows(f, g, n) == kr;
      } else {
        assert KeptIndices(f, n) == ki + [n - 1] && KeptRows(f, g, n) == kr + [g[n - 1]];
      }
    }
  }

  lemma {:induction false} KeptIndicesIncrease(f: seq<seq<bool>>, n: int)
    requires 0 <= n <= |f|
    ensures forall k, l :: 0 <= k < l < |KeptIndices(f, n)| ==> KeptIndices(f, n)[k] < KeptIndices(f, n)[l]
  {
    if n > 0 {
      KeptIndicesIncrease(f, n - 1);
      var ki := KeptIndices(f, n - 1);
      if !Full(f[n - 1]) {
        assert KeptIndices(f, n) == ki + [n - 1];
      }
    }
  }

  lemma {:induction false} KeptIndicesMember(f: seq<seq<bool>>, n: int)
    requires 0 <= n <= |f|
    ensures forall i :: 0 <= i < n ==> (i in KeptIndices(f, n) <==> !Full(f[i]))
  {
    if n > 0 {
      KeptIndicesMember(f, n - 1);
      var ki := KeptIndices(f, n - 1);
      assert n - 1 !in ki;
      if Full(f[n - 1]) {
        assert KeptIndices(f, n) == ki;
      } else {
        assert KeptIndices(f, n) == ki + [n - 1];
      }
    }
  }

  /** Clearing keeps the grid shape. */
  lemma ClearLinesShape<T>(f: seq<seq<bool>>, g: seq<seq<T>>, blank: seq<T>, cols: int)
    requires Shaped(f, cols) && Shaped(g, cols) && |blank| == cols
    ensures Shaped(ClearLines(f, g, blank), cols)
  {
    KeptRowsSpec(f, g, ROWS);
  }

  /** Row i of the cleared grid: a blank row above the cleared count, a kept row below. */
  lemma ClearLinesRow<T>(f: seq<seq<bool>>, g: seq<seq<T>>, blank: seq<T>, i: int)
    requires |f| == |g| == ROWS && 0 <= i < ROWS
    ensures var c := FullCount(f, ROWS);
            ClearLines(f, g, blank)[i] ==
              if i < c then blank else g[KeptIndices(f, ROWS)[i - c]]
    ensures i >= FullCount(f, ROWS) ==> 0 <= i - FullCount(f, ROWS) < |KeptIndices(f, ROWS)|
    ensures i >= FullCount(f, ROWS) ==> !Full(f[KeptIndices(f, ROWS)[i - FullCount(f, ROWS)]])
  {
    KeptRowsSpec(f, g, ROWS);
    var c := FullCount(f, ROWS);
    if i >= c {
      var k := KeptIndices(f, ROWS)[i - c];
      assert k in KeptIndices(f, ROWS);
    }
  }

  /** The whole cleared grid: blank rows above the cleared count, the kept rows in order below it. */
  lemma ClearLinesLayout<T>(f: seq<seq<bool>>, g: seq<seq<T>>, blank: seq<T>)
    requires |f| == |g| == ROWS
    ensures var r, c := ClearLines(f, g, blank), FullCount(f, ROWS);
            |KeptIndices(f, ROWS)| == ROWS - c &&
            (forall i :: 0 <= i < c ==> r[i] == blank) &&
            (forall i :: c <= i < ROWS ==> r[i] == g[KeptIndices(f, ROWS)[i - c]])
  {
    forall i | 0 <= i < ROWS
      ensures ClearLines(f, g, blank)[i] == if i < FullCount(f, ROWS) then blank else g[KeptIndices(f, ROWS)[i - FullCount(f, ROWS)]]
    {
      ClearLinesRow(f, g, blank, i);
    }
  }

  /** After clearing, no row of a grid with at least one column is full. */
  lemma ClearLinesNoFullRow(f: seq<seq<bool>>, cols: int)
    requires Shaped(f, cols) && cols >= 1
    ensures NoFullRow(ClearLines(f, f, Blank(cols, false)))
  {
    var blank := Blank(cols, false);
    var r := ClearLines(f, f, blank);
    forall i | 0 <= i < |r| ensures !Full(r[i]) {
      ClearLinesRow(f, f, blank, i);
      if i < FullCount(f, ROWS) {
        assert !r[i][0];
      }
    }
  }

  /** Clearing both grids with the same rows keeps empty cells uncoloured. */
  lemma ClearLinesColors(f: seq<seq<bool>>, cf: seq<seq<RGB>>, cols: int)
    requires Shaped(f, cols) && Shaped(cf, cols) && ColorsConsistent(f, cf, cols) && cols >= 0
    ensures Shaped(ClearLines(f, f, Blank(cols, false)), cols)
    ensures Shaped(ClearLines(f, cf, Blank(cols, BLACK)), cols)
    ensures ColorsConsistent(ClearLines(f, f, Blank(cols, false)), ClearLines(f, cf, Blank(cols, BLACK)), cols)
  {
    var bf, bc := Blank(cols, false), Blank(cols, BLACK);
    ClearLinesShape(f, f, bf, cols);
    ClearLinesShape(f, cf, bc, cols);
    var nf, nc := ClearLines(f, f, bf), ClearLines(f, cf, bc);
    forall i, j | 0 <= i < ROWS && 0 <= j < cols && !nf[i][j] ensures nc[i][j] == BLACK {
      ClearLinesRow(f, f, bf, i);
      ClearLinesRow(f, cf, bc, i);
    }
  }

  /** Stamping the same blocks as occupied and with one colour keeps empty cells uncoloured. */
  lemma StampColors(f: seq<seq<bool>>, cf: seq<seq<RGB>>, cols: int, bs: Shape, row: int, col: int, color: RGB)
    requires Shaped(f, cols) && Shaped(cf, cols) && ColorsConsistent(f, cf, cols) && ColumnsFit(bs, col, cols)
    ensures ColorsConsistent(Stamp(f, cols, bs, row, col, true), Stamp(cf, cols, bs, row, col, color), cols)
  {
    var nf, nc := Stamp(f, cols, bs, row, col, true), Stamp(cf, cols, bs, row, col, color);
    forall i, j | 0 <= i < ROWS && 0 <= j < cols && !nf[i][j] ensures nc[i][j] == BLACK {
      StampCell(f, cols, bs, row, col, true, i, j);
      StampCell(cf, cols, bs, row, col, color, i, j);
    }
  }
}
