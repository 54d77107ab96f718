/**
 * One frame of `single_game_loop`: the bordered LED matrix of (ROWS + 2) x (COLS + 2) colours that
 * `render` draws, and the list of changed interior cells against the previous frame, each turned
 * into the display's coordinates `(c, ROWS - r + 1)`.
 */
module Frame {
  import opened Display
  import opened Board
  import opened Rules
  import Wire

  /** The bordered matrix: ROWS + 2 rows of COLS + 2 colours. */
  predicate Bordered(m: seq<seq<RGB>>)
  {
    |m| == ROWS + 2 && forall i :: 0 <= i < |m| ==> |m[i]| == COLS + 2
  }

  /** Cell (i, j) of the matrix lies over this game's field, at offset `(r + 1, c + cols_start + 1)`. */
  predicate InBand(cols: int, colsStart: int, i: int, j: int)
  {
    1 <= i <= ROWS && colsStart + 1 <= j <= colsStart + cols
  }

  /** `self.color_field[r][c] if self.field[r][c] else COLOR_BLACK`. */
  function FieldColor(f: seq<seq<bool>>, cf: seq<seq<RGB>>, cols: int, r: int, c: int): RGB
    requires Shaped(f, cols) && Shaped(cf, cols) && 0 <= r < ROWS && 0 <= c < cols
  {
    if f[r][c] then cf[r][c] else BLACK
  }

  /**
   * What `render` leaves in cell (i, j) over a previous colour `prev`: the piece's colour where one of
   * its blocks lands, else the field's colour over the band, else `prev`.
   */
  function Rendered(cols: int, colsStart: int, s: State, prev: RGB, i: int, j: int): RGB
    requires Shaped(s.field, cols) && Shaped(s.colorField, cols)
  {
    if Covers(s.blocks, s.row + 1, s.col + colsStart + 1, i, j) then s.color
    else if InBand(cols, colsStart, i, j) then FieldColor(s.field, s.colorField, cols, i - 1, j - colsStart - 1)
    else prev
  }

  /** The matrix after it is cleared to black and the game is rendered into it. */
  function Picture(cols: int, colsStart: int, s: State): (m: seq<seq<RGB>>)
    requires Shaped(s.field, cols) && Shaped(s.colorField, cols)
    ensures Bordered(m)
  {
    seq(ROWS + 2, i => seq(COLS + 2, j => Rendered(cols, colsStart, s, BLACK, i, j)))
  }

  /**
   * With the grids consistent (free cells are black), a band cell that the piece does not cover shows
   * the colour grid as it is.
   */
  lemma RenderedBand(cols: int, colsStart: int, s: State, prev: RGB, i: int, j: int)
    requires Inv(cols, s) && InBand(cols, colsStart, i, j)
    requires !Covers(s.blocks, s.row + 1, s.col + colsStart + 1, i, j)
    ensures Rendered(cols, colsStart, s, prev, i, j) == s.colorField[i - 1][j - colsStart - 1]
  {
  }

  /**
   * A live piece is drawn only over the game's own band: its cells lie in the band's columns and
   * never below the field, so two games side by side never draw into each other's columns.
   */
  lemma PieceInBand(cols: int, colsStart: int, s: State, i: int, j: int)
    requires Inv(cols, s) && !s.gameOver
    requires Covers(s.blocks, s.row + 1, s.col + colsStart + 1, i, j)
    ensures i <= ROWS && colsStart + 1 <= j <= colsStart + cols
  {
    var k :| 0 <= k < |s.blocks| && s.row + 1 + s.blocks[k].0 == i && s.col + colsStart + 1 + s.blocks[k].1 == j;
    assert CellFree(s.field, cols, s.row + s.blocks[k].0, s.col + s.blocks[k].1);
  }

  /**
   * Beside the band and on the bottom border a live game leaves every cell as it was. (A piece
   * entering from above may still show a block on the top border row.)
   */
  lemma RenderedOutside(cols: int, colsStart: int, s: State, prev: RGB, i: int, j: int)
    requires Inv(cols, s) && !s.gameOver
    requires !(colsStart + 1 <= j <= colsStart + cols) || i == ROWS + 1
    ensures Rendered(cols, colsStart, s, prev, i, j) == prev
  {
    if Covers(s.blocks, s.row + 1, s.col + colsStart + 1, i, j) {
      PieceInBand(cols, colsStart, s, i, j);
    }
  }

  // ---------------------------------------------------------------------------------------------
  // The changed cells

  /** The pixel sent for interior cell (r, c) with colour v: `(c, ROWS - r + 1, v)`. */
  function Rotated(r: int, c: int, v: RGB): Pixel
  {
    Pixel(c, ROWS - r + 1, v)
  }

  /** The changes in columns 1 .. n of row r, left to right. */
  function RowChanges(cur: seq<seq<RGB>>, prev: seq<seq<RGB>>, r: int, n: int): seq<Pixel>
    requires Bordered(cur) && Bordered(prev) && 0 <= r < ROWS + 2 && 0 <= n <= COLS
  {
    if n == 0 then []
    else RowChanges(cur, prev, r, n - 1) + if cur[r][n] != prev[r][n] then [Rotated(r, n, cur[r][n])] else []
  }

  /** The changes in rows 1 .. n, top to bottom. */
  function Changes(cur: seq<seq<RGB>>, prev: seq<seq<RGB>>, n: int): seq<Pixel>
    requires Bordered(cur) && Bordered(prev) && 0 <= n <= ROWS
  {
    if n == 0 then [] else Changes(cur, prev, n - 1) + RowChanges(cur, prev, n, COLS)
  }

  /** The `changed` list of one frame: every interior cell that differs, in row-major order. */
  function Diff(cur: seq<seq<RGB>>, prev: seq<seq<RGB>>): seq<Pixel>
    requires Bordered(cur) && Bordered(prev)
  {
    Changes(cur, prev, ROWS)
  }

  /** Cell (r, c) of pixel p, inverting the rotation: r = ROWS - col + 1, c = row. */
  predicate ChangedCell(cur: seq<seq<RGB>>, prev: seq<seq<RGB>>, lo: int, hi: int, n: int, p: Pixel)
    requires Bordered(cur) && Bordered(prev) && 0 <= lo && hi < ROWS + 2 && n <= COLS
  {
    var r, c := ROWS - p.col + 1, p.row;
    lo <= r <= hi && 1 <= c <= n && cur[r][c] != prev[r][c] && p.color == cur[r][c]
  }

  lemma {:induction false} RowChangesSpec(cur: seq<seq<RGB>>, prev: seq<seq<RGB>>, r: int, n: int, p: Pixel)
    requires Bordered(cur) && Bordered(prev) && 0 <= r < ROWS + 2 && 0 <= n <= COLS
    ensures p in RowChanges(cur, prev, r, n) <==> ChangedCell(cur, prev, r, r, n, p)
  {
    if n > 0 {
      RowChangesSpec(cur, prev, r, n - 1, p);
    }
  }

  lemma {:induction false} ChangesSpec(cur: seq<seq<RGB>>, prev: seq<seq<RGB>>, n: int, p: Pixel)
    requires Bordered(cur) && Bordered(prev) && 0 <= n <= ROWS
    ensures p in Changes(cur, prev, n) <==> ChangedCell(cur, prev, 1, n, COLS, p)
  {
    if n > 0 {
      ChangesSpec(cur, prev, n - 1, p);
      RowChangesSpec(cur, prev, n, COLS, p);
    }
  }

  /**
   * A pixel is listed exactly when it is the rotated address of an interior cell (rows 1 .. ROWS,
   * columns 1 .. COLS) whose colour changed, with the cell's new colour.
   */
  lemma DiffSpec(cur: seq<seq<RGB>>, prev: seq<seq<RGB>>, p: Pixel)
    requires Bordered(cur) && Bordered(prev)
    ensures p in Diff(cur, prev) <==>
              1 <= p.row <= COLS && 1 <= p.col <= ROWS &&
              cur[ROWS - p.col + 1][p.row] != prev[ROWS - p.col + 1][p.row] && p.color == cur[ROWS - p.col + 1][p.row]
  {
    ChangesSpec(cur, prev, ROWS, p);
  }

  /** Every interior cell that changed is reported, at its rotated address and with its new colour. */
  lemma DiffComplete(cur: seq<seq<RGB>>, prev: seq<seq<RGB>>, r: int, c: int)
    requires Bordered(cur) && Bordered(prev) && 1 <= r <= ROWS && 1 <= c <= COLS && cur[r][c] != prev[r][c]
    ensures Rotated(r, c, cur[r][c]) in Diff(cur, prev)
  {
    DiffSpec(cur, prev, Rotated(r, c, cur[r][c]));
  }

  /** A frame equal to the previous one sends nothing. */
  lemma {:induction false} DiffSame(m: seq<seq<RGB>>)
    requires Bordered(m)
    ensures Diff(m, m) == []
  {
    if Diff(m, m) != [] {
      DiffSpec(m, m, Diff(m, m)[0]);
    }
  }

  /** A change of the border alone sends nothing either. */
  lemma DiffInteriorOnly(cur: seq<seq<RGB>>, prev: seq<seq<RGB>>)
    requires Bordered(cur) && Bordered(prev)
    requires forall r, c :: 1 <= r <= ROWS && 1 <= c <= COLS ==> cur[r][c] == prev[r][c]
    ensures Diff(cur, prev) == []
  {
    if Diff(cur, prev) != [] {
      DiffSpec(cur, prev, Diff(cur, prev)[0]);
    }
  }

  /**
   * Every listed pixel has a row in 1 .. COLS and a column in 1 .. ROWS, so it fits the one-byte
   * fields of a command and is never taken for a padding entry.
   */
  lemma DiffEncodable(cur: seq<seq<RGB>>, prev: seq<seq<RGB>>)
    requires Bordered(cur) && Bordered(prev)
    ensures forall p :: p in Diff(cur, prev) ==> 1 <= p.row <= COLS && 1 <= p.col <= ROWS
    ensures Wire.AllEncodable(Diff(cur, prev))
    ensures forall p :: p in Diff(cur, prev) ==> !Wire.IsPaddingPixel(p)
  {
    forall p | p in Diff(cur, prev) ensures 1 <= p.row <= COLS && 1 <= p.col <= ROWS {
      DiffSpec(cur, prev, p);
    }
  }

  /** The commands built from a frame's changes decode back to exactly those changes, in order. */
  lemma DiffRoundTrip(cur: seq<seq<RGB>>, prev: seq<seq<RGB>>)
    requires Bordered(cur) && Bordered(prev)
    ensures Wire.AllEncodable(Diff(cur, prev))
    ensures Wire.DecodeAll(Wire.Commands(Diff(cur, prev))) == Diff(cur, prev)
  {
    DiffEncodable(cur, prev);
    Wire.DecodeCommandsRoundTrip(Diff(cur, prev));
  }

  /** The position of a pixel's cell in row-major order. */
  function Order(p: Pixel): int
  {
    (ROWS - p.col + 1) * (COLS + 1) + p.row
  }

  /** A list whose cells come in strictly increasing row-major order. */
  predicate Increasing(ps: seq<Pixel>)
  {
    forall i, j :: 0 <= i < j < |ps| ==> Order(ps[i]) < Order(ps[j])
  }

  /** Two increasing lists, every cell of the first before every cell of the second, join to an increasing list. */
  lemma IncreasingAppend(a: seq<Pixel>, b: seq<Pixel>, bound: int)
    requires Increasing(a) && Increasing(b)
    requires forall p :: p in a ==> Order(p) <= bound
    requires forall p :: p in b ==> bound < Order(p)
    ensures Increasing(a + b)
  {
    forall i, j | 0 <= i < j < |a + b| ensures Order((a + b)[i]) < Order((a + b)[j]) {
      if i >= |a| {
        assert (a + b)[i] == b[i - |a|] && (a + b)[j] == b[j - |a|];
      } else if j >= |a| {
        assert (a + b)[i] == a[i] && (a + b)[j] == b[j - |a|];
        assert a[i] in a && b[j - |a|] in b;
      } else {
        assert (a + b)[i] == a[i] && (a + b)[j] == a[j];
      }
    }
  }

  lemma {:induction false} RowChangesOrder(cur: seq<seq<RGB>>, prev: seq<seq<RGB>>, r: int, n: int)
    requires Bordered(cur) && Bordered(prev) && 0 <= r < ROWS + 2 && 0 <= n <= COLS
    ensures Increasing(RowChanges(cur, prev, r, n))
    ensures forall p :: p in RowChanges(cur, prev, r, n) ==> r * (COLS + 1) + 1 <= Order(p) <= r * (COLS + 1) + n
  {
    if n > 0 {
      RowChangesOrder(cur, prev, r, n - 1);
      var a := RowChanges(cur, prev, r, n - 1);
      var b := if cur[r][n] != prev[r][n] then [Rotated(r, n, cur[r][n])] else [];
      assert forall p :: p in b ==> Order(p) == r * (COLS + 1) + n;
      IncreasingAppend(a, b, r * (COLS + 1) + n - 1);
    }
  }

  lemma {:induction false} ChangesOrder(cur: seq<seq<RGB>>, prev: seq<seq<RGB>>, n: int)
    requires Bordered(cur) && Bordered(prev) && 0 <= n <= ROWS
    ensures Increasing(Changes(cur, prev, n))
    ensures forall p :: p in Changes(cur, prev, n) ==> Order(p) <= n * (COLS + 1) + COLS
  {
    if n > 0 {
      ChangesOrder(cur, prev, n - 1);
      RowChangesOrder(cur, prev, n, COLS);
      var a, b := Changes(cur, prev, n - 1), RowChanges(cur, prev, n, COLS);
      IncreasingAppend(a, b, (n - 1) * (COLS + 1) + COLS);
    }
  }

  /** The changes come in row-major order of their cells, so no cell is reported twice. */
  lemma DiffOrder(cur: seq<seq<RGB>>, prev: seq<seq<RGB>>)
    requires Bordered(cur) && Bordered(prev)
    ensures Increasing(Diff(cur, prev))
    ensures forall i, j :: 0 <= i < j < |Diff(cur, prev)| ==>
              (Diff(cur, prev)[i].row, Diff(cur, prev)[i].col) != (Diff(cur, prev)[j].row, Diff(cur, prev)[j].col)
  {
    ChangesOrder(cur, prev, ROWS);
  }

  // ---------------------------------------------------------------------------------------------
  // The matrices as arrays

  /** The contents of a matrix held in an array. */
  function Contents(a: array2<RGB>): (m: seq<seq<RGB>>)
    reads a
    ensures |m| == a.Length0 && forall i :: 0 <= i < |m| ==> |m[i]| == a.Length1
  {
    seq(a.Length0, i reads a requires 0 <= i < a.Length0 => seq(a.Length1, j reads a requires 0 <= j < a.Length1 => a[i, j]))
  }

  /** `for r in range(ROWS+2): for c in range(COLS+2): led_matrix[r][c] = COLOR_BLACK`. */
  method ClearMatrix(led: array2<RGB>)
    modifies led
    ensures forall i, j :: 0 <= i < led.Length0 && 0 <= j < led.Length1 ==> led[i, j] == BLACK
  {
    for r := 0 to led.Length0
      invariant forall i, j :: 0 <= i < r && 0 <= j < led.Length1 ==> led[i, j] == BLACK
    {
      for c := 0 to led.Length1
        invariant forall i, j :: 0 <= i < r && 0 <= j < led.Length1 ==> led[i, j] == BLACK
        invariant forall j :: 0 <= j < c ==> led[r, j] == BLACK
      {
        led[r, c] := BLACK;
      }
    }
  }

  /** The diff loop: every interior cell of `led` that differs from `prev`, rotated, in row-major order. */
  method ChangedPixels(led: array2<RGB>, prev: array2<RGB>) returns (changed: seq<Pixel>)
    requires led.Length0 == prev.Length0 == ROWS + 2 && led.Length1 == prev.Length1 == COLS + 2
    ensures changed == Diff(Contents(led), Contents(prev))
  {
    ghost var cur, old_ := Contents(led), Contents(prev);
    changed := [];
    for r := 1 to ROWS + 1
      invariant changed == Changes(cur, old_, r - 1)
    {
      for c := 1 to COLS + 1
        invariant changed == Changes(cur, old_, r - 1) + RowChanges(cur, old_, r, c - 1)
      {
        if led[r, c] != prev[r, c] {
          changed := changed + [Pixel(c, ROWS - r + 1, led[r, c])];
        }
      }
    }
  }

  /** `prev_matrix = [row[:] for row in led_matrix]`: a new matrix with the same contents. */
  method CopyMatrix(led: array2<RGB>) returns (copy: array2<RGB>)
    ensures fresh(copy) && Contents(copy) == Contents(led)
  {
    copy := new RGB[led.Length0, led.Length1]((i, j) reads led requires 0 <= i < led.Length0 && 0 <= j < led.Length1 => led[i, j]);
    SameContents(copy, led);
  }

  /** Two arrays with the same dimensions and the same cells have the same contents. */
  lemma SameContents(a: array2<RGB>, b: array2<RGB>)
    requires a.Length0 == b.Length0 && a.Length1 == b.Length1
    requires forall i, j :: 0 <= i < a.Length0 && 0 <= j < a.Length1 ==> a[i, j] == b[i, j]
    ensures Contents(a) == Contents(b)
  {
    forall i | 0 <= i < a.Length0 ensures Contents(a)[i] == Contents(b)[i] {
    }
  }

  /** A matrix whose every cell is what `render` draws over black holds the game's picture. */
  lemma PictureContents(led: array2<RGB>, cols: int, colsStart: int, s: State)
    requires Shaped(s.field, cols) && Shaped(s.colorField, cols)
    requires led.Length0 == ROWS + 2 && led.Length1 == COLS + 2
    requires forall i, j :: 0 <= i < ROWS + 2 && 0 <= j < COLS + 2 ==> led[i, j] == Rendered(cols, colsStart, s, BLACK, i, j)
    ensures Contents(led) == Picture(cols, colsStart, s)
  {
    forall i | 0 <= i < ROWS + 2 ensures Contents(led)[i] == Picture(cols, colsStart, s)[i] {
    }
  }
}
