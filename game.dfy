/**
 * `TetrisGame`: one game on its own band of columns of the LED curtain. The object keeps the
 * occupancy and colour grids, the falling piece, the remembered target and the lock count, and its
 * methods change them in place; each method is proved to leave the state that the functions of
 * module Rules prescribe, and the lemmas there say what those functions guarantee.
 */
module Game {
  import opened Wrappers
  import opened Display
  import opened Pieces
  import opened Board
  import opened Search
  import opened Planner
  import opened Rules
  import opened Frame
  import Seqs

  class TetrisGame {
    /** The display column just left of this game's field (`cols_start`). */
    const colsStart: int
    const colsCount: int
    /** The generator seeded in `__init__`: the n-th value it yields. */
    const oracle: nat -> nat
    /** The shapes of `TETROMINOS`, in dictionary order. */
    const shapes: seq<Shape>
    /** How many values have been drawn from the generator so far. */
    var draws: nat
    var field: seq<seq<bool>>
    var colorField: seq<seq<RGB>>
    var pieceBlocks: Shape
    var pieceRow: int
    var pieceCol: int
    var pieceColor: RGB
    var gameOver: bool
    var lockedPiecesCount: nat
    /** `(target_blocks, target_col)`, which the source always sets and clears together. */
    var target: Option<Placement>

    /** What stays fixed during the game. */
    function Conf(): Config
    {
      Config(colsCount, shapes, oracle)
    }

    /** The fields that change, as one value. */
    function Snapshot(): State
      reads this
    {
      State(draws, field, colorField, pieceBlocks, pieceRow, pieceCol, pieceColor, gameOver, lockedPiecesCount, target)
    }

    predicate Valid()
      reads this
    {
      ConfigOk(Conf()) && Inv(colsCount, Snapshot())
    }

    /** `max_height`: the largest column height, 0 for an empty field. */
    method MaxHeight() returns (m: nat)
      requires Shaped(field, colsCount) && colsCount >= 0
      ensures m == Rules.MaxHeight(field, colsCount)
    {
      m := Tallest(field, colsCount);
    }

    /**
     * `__init__` with the generator given as its output: empty grids, no piece yet, the spawn column
     * `cols_count // 2 - 1`, then the first spawn.
     */
    constructor (colsStart: int, colsCount: int, oracle: nat -> nat)
      requires colsCount >= 1
      ensures this.colsStart == colsStart && this.colsCount == colsCount && this.oracle == oracle
      ensures shapes == TETROMINOS
      ensures Valid() && Snapshot() == Start(Conf())
    {
      this.colsStart := colsStart;
      this.colsCount := colsCount;
      this.oracle := oracle;
      shapes := TETROMINOS;
      new;
      TetrominosOk(oracle, colsCount);
      draws := 0;
      field := BlankGrid(colsCount, false);
      colorField := BlankGrid(colsCount, BLACK);
      pieceBlocks := [];
      pieceRow := -2;
      pieceCol := colsCount / 2 - 1;
      pieceColor := COLOR_PALETTE[0];
      gameOver := false;
      lockedPiecesCount := 0;
      target := None;
      assert Snapshot() == Initial(colsCount);
      StartSpec(Conf());
      forall i | 0 <= i < ROWS ensures !Full(field[i]) {
        assert !field[i][0];
      }
      SpawnNewPiece();
    }

    /**
     * `spawn_new_piece`. From `HELP_THRESHOLD` on it searches every shape at row -2 and ends the game
     * when nothing fits; below it the recursive retry draws shapes until one fits at the spawn column,
     * here at most `SPAWN_ATTEMPTS` times. A placed piece starts at row -2 with a drawn colour and no
     * target, and the game ends if it does not fit there.
     */
    method SpawnNewPiece()
      modifies this
      requires ConfigOk(Conf()) && Shaped(field, colsCount)
      ensures Snapshot() == Spawn(Conf(), old(Snapshot()))
    {
      ghost var s := Snapshot();
      var choice := ChooseSpawn();
      SpawnChoiceFits(s.field, Conf(), s.draws);
      PlaceChoice(choice);
      PlaceDraws(Conf(), s, choice, choice.draws);
    }

    /**
     * The end of `spawn_new_piece` once the choice is made: with no piece only `game_over` is set;
     * otherwise the piece starts at row -2 with a drawn colour and no target, and the game ends if it
     * does not fit there.
     */
    method PlaceChoice(choice: SpawnOutcome)
      modifies this
      requires Shaped(field, colsCount) && draws == choice.draws
      requires choice.Placed? ==> |choice.blocks| > 0
      ensures Snapshot() == Place(Conf(), old(Snapshot()), choice)
    {
      match choice {
        case NoPlacement(_) =>
          gameOver := true;
        case Placed(b, c, d) =>
          var ok := CanPlaceAt(field, colsCount, b, -2, c);
          SetPiece(b, c, Choice(oracle, d, COLOR_PALETTE), d + 1, ok);
      }
    }

    /** Puts a new piece at its spawn row `-2`; it ends the game when the spawn cell is taken. */
    method SetPiece(b: Shape, c: int, color: RGB, d: nat, ok: bool)
      modifies this
      ensures Snapshot() == old(Snapshot()).(blocks := b, col := c, row := -2, color := color, draws := d,
                                              target := None, gameOver := old(gameOver) || !ok)
    {
      pieceBlocks, pieceCol, pieceRow, pieceColor, draws, target, gameOver :=
        b, c, -2, color, d, None, gameOver || !ok;
    }

    /** The two ways `spawn_new_piece` picks a shape and a column, with the draws they consume. */
    method ChooseSpawn() returns (choice: SpawnOutcome)
      modifies this`draws
      requires ConfigOk(Conf()) && Shaped(field, colsCount)
      ensures choice == SpawnChoice(field, Conf(), old(draws)) && draws == choice.draws
    {
      var h := MaxHeight();
      if h >= HELP_THRESHOLD {
        choice := HelpSpawn(field, Conf(), draws);
      } else {
        choice := RandomSpawn(field, Conf(), draws);
      }
      draws := choice.draws;
    }

    /** The moves of a tick before the fall: fix the target, then steer and turn toward it. */
    method Steer()
      modifies this
      requires Valid() && !gameOver
      ensures Snapshot() == Steered(colsCount, old(Snapshot()))
    {
      ghost var s := Snapshot();
      ChooseTarget();
      var t := target.value;
      SteerToward(t.col);
      RotateToward(t.blocks);
      assert Snapshot() == s.(target := Some(t), col := pieceCol, blocks := pieceBlocks);
    }

    /** `if self.target_blocks is None`: the best placement of the piece's rotations from its row, or where it is. */
    method ChooseTarget()
      modifies this`target
      requires Valid() && !gameOver
      ensures target == Some(TargetOf(colsCount, old(Snapshot())))
    {
      if target.None? {
        var best := SearchBest(field, colsCount, [pieceBlocks], pieceRow);
        target := if best.Some? then best else Some(Placement(pieceBlocks, pieceCol));
      }
    }

    /** Move one column toward the target column when the piece fits there. */
    method SteerToward(tcol: int)
      modifies this`pieceCol
      requires Shaped(field, colsCount)
      ensures pieceCol == SteerCol(field, colsCount, pieceBlocks, pieceRow, old(pieceCol), tcol)
    {
      if pieceCol < tcol {
        var ok := CanPlaceAt(field, colsCount, pieceBlocks, pieceRow, pieceCol + 1);
        if ok {
          pieceCol := pieceCol + 1;
        }
      } else if pieceCol > tcol {
        var ok := CanPlaceAt(field, colsCount, pieceBlocks, pieceRow, pieceCol - 1);
        if ok {
          pieceCol := pieceCol - 1;
        }
      }
    }

    /** From row 3 on, turn once toward a different target among the piece's rotations, if the turn fits. */
    method RotateToward(goal: Shape)
      modifies this`pieceBlocks
      requires Shaped(field, colsCount)
      ensures pieceBlocks == Planner.RotateToward(field, colsCount, old(pieceBlocks), pieceRow, pieceCol, goal)
    {
      if pieceBlocks != goal && pieceRow >= 3 {
        var rots := GetRotations(pieceBlocks);
        RotationsHead(pieceBlocks);
        pieceBlocks := Turn(field, colsCount, rots, pieceBlocks, pieceRow, pieceCol, goal);
      }
    }

    /**
     * `lock_piece`: write the piece into both grids, count it, keep the rows that are not full in
     * order and put as many blank rows on top, then spawn the next piece.
     */
    method LockPiece()
      modifies this
      requires Valid() && !gameOver
      ensures Snapshot() == Lock(Conf(), old(Snapshot()))
      ensures Valid()
    {
      ghost var s := Snapshot();
      CanPlaceColumnsFit(field, colsCount, pieceBlocks, pieceRow, pieceCol);
      var f := StampCells(field, colsCount, pieceBlocks, pieceRow, pieceCol, true);
      var cf := StampCells(colorField, colsCount, pieceBlocks, pieceRow, pieceCol, pieceColor);
      lockedPiecesCount := lockedPiecesCount + 1;
      field, colorField := ClearFullRows(f, cf, colsCount);
      assert Snapshot() == Cleared(colsCount, s);
      LockSpec(Conf(), s);
      SpawnNewPiece();
    }

    /**
     * `update`, one tick: nothing once the game is over; otherwise fix the target if there is none
     * (the best placement of the piece's own rotations from its row, or where it is), move one column
     * toward it where the piece fits, turn once toward a different target among its rotations from row
     * 3 on, then fall one row or lock.
     */
    method Update()
      modifies this
      requires Valid()
      ensures Snapshot() == Step(Conf(), old(Snapshot()))
      ensures Valid()
    {
      if gameOver {
        return;
      }
      ghost var s := Snapshot();
      Steer();
      var fall := CanPlaceAt(field, colsCount, pieceBlocks, pieceRow + 1, pieceCol);
      if fall {
        pieceRow := pieceRow + 1;
        StepInv(Conf(), s);
      } else {
        LockPiece();
      }
    }

    /**
     * `render`: the field over its band of the matrix, each cell its colour when occupied and black
     * otherwise, then the falling piece in its colour wherever it lands inside the matrix.
     */
    method Render(led: array2<RGB>)
      modifies led
      requires Shaped(field, colsCount) && Shaped(colorField, colsCount)
      requires led.Length0 == ROWS + 2 && led.Length1 == COLS + 2
      requires -1 <= colsStart && colsStart + colsCount <= COLS + 1
      ensures forall i, j :: 0 <= i < ROWS + 2 && 0 <= j < COLS + 2 ==>
                led[i, j] == Rendered(colsCount, colsStart, Snapshot(), old(led[i, j]), i, j)
    {
      DrawField(led, field, colorField, colsCount, colsStart);
      DrawPiece(led, pieceBlocks, pieceRow + 1, pieceCol + colsStart + 1, pieceColor);
    }
  }

  /** The first loop of `render`: every cell of the field into rows 1 .. ROWS, columns `cols_start + 1` on. */
  method DrawField(led: array2<RGB>, f: seq<seq<bool>>, cf: seq<seq<RGB>>, cols: int, colsStart: int)
    modifies led
    requires Shaped(f, cols) && Shaped(cf, cols)
    requires led.Length0 == ROWS + 2 && led.Length1 == COLS + 2
    requires -1 <= colsStart && colsStart + cols <= COLS + 1
    ensures forall i, j :: 0 <= i < ROWS + 2 && 0 <= j < COLS + 2 ==>
              led[i, j] == if InBand(cols, colsStart, i, j) then FieldColor(f, cf, cols, i - 1, j - colsStart - 1) else old(led[i, j])
  {
    for r := 0 to ROWS
      invariant forall i, j :: 0 <= i < ROWS + 2 && 0 <= j < COLS + 2 ==>
                  led[i, j] == if i <= r && InBand(cols, colsStart, i, j) then FieldColor(f, cf, cols, i - 1, j - colsStart - 1) else old(led[i, j])
    {
      DrawFieldRow(led, f, cf, cols, colsStart, r);
    }
  }

  /** Row r of the field into row r + 1 of the matrix. */
  method DrawFieldRow(led: array2<RGB>, f: seq<seq<bool>>, cf: seq<seq<RGB>>, cols: int, colsStart: int, r: int)
    modifies led
    requires Shaped(f, cols) && Shaped(cf, cols) && 0 <= r < ROWS
    requires led.Length0 == ROWS + 2 && led.Length1 == COLS + 2
    requires -1 <= colsStart && colsStart + cols <= COLS + 1
    ensures forall i, j :: 0 <= i < ROWS + 2 && 0 <= j < COLS + 2 ==>
              led[i, j] == if i == r + 1 && InBand(cols, colsStart, i, j) then FieldColor(f, cf, cols, r, j - colsStart - 1) else old(led[i, j])
  {
    for c := 0 to cols
      invariant forall i, j :: 0 <= i < ROWS + 2 && 0 <= j < COLS + 2 ==>
                  led[i, j] == if i == r + 1 && colsStart + 1 <= j < colsStart + 1 + c then FieldColor(f, cf, cols, r, j - colsStart - 1) else old(led[i, j])
    {
      led[r + 1, c + colsStart + 1] := if f[r][c] then cf[r][c] else BLACK;
    }
  }

  /** The second loop of `render`: each block of the piece anchored at (row, col), where it lies in the matrix. */
  method DrawPiece(led: array2<RGB>, bs: Shape, row: int, col: int, v: RGB)
    modifies led
    ensures forall i, j :: 0 <= i < led.Length0 && 0 <= j < led.Length1 ==>
              led[i, j] == if Covers(bs, row, col, i, j) then v else old(led[i, j])
  {
    for k := 0 to |bs|
      invariant forall i, j :: 0 <= i < led.Length0 && 0 <= j < led.Length1 ==>
                  led[i, j] == if Covers(bs[..k], row, col, i, j) then v else old(led[i, j])
    {
      var nr, nc := row + bs[k].0, col + bs[k].1;
      CoversSnoc(bs, k, row, col);
      if 0 <= nr < led.Length0 && 0 <= nc < led.Length1 {
        led[nr, nc] := v;
      }
    }
    assert bs[..|bs|] == bs;
  }

  /** The help branch of `spawn_new_piece`: the best placement of any shape from row -2, if there is one. */
  method HelpSpawn(field: seq<seq<bool>>, g: Config, draws: nat) returns (choice: SpawnOutcome)
    requires ConfigOk(g) && Shaped(field, g.cols)
    ensures choice == HelpOutcome(field, g, draws)
  {
    var best := SearchBest(field, g.cols, g.shapes, -2);
    choice := if best.Some? then Placed(best.value.blocks, best.value.col, draws) else NoPlacement(draws);
  }

  /**
   * The random branch of `spawn_new_piece`: the first drawn shape that fits at row -2 and the start
   * column, with the draws advanced past it, or nothing once every attempt is spent.
   */
  method RandomSpawn(field: seq<seq<bool>>, g: Config, draws: nat) returns (choice: SpawnOutcome)
    requires ConfigOk(g) && Shaped(field, g.cols)
    ensures choice == RandomOutcome(field, g, draws)
  {
    var startCol := g.cols / 2 - 1;
    var pick, d := FirstFitting(field, g, startCol, draws, SPAWN_ATTEMPTS);
    ghost var r := RandomPick(field, g, draws, SPAWN_ATTEMPTS);
    if pick.Some? {
      assert r.Some? && pick.value == Choice(g.oracle, r.value, g.shapes) && d == r.value + 1;
      choice := Placed(pick.value, startCol, d);
    } else {
      assert r.None? && d == draws + SPAWN_ATTEMPTS;
      choice := NoPlacement(d);
    }
  }

  /** The retry of the random branch as a loop of at most `attempts` draws, from draw `d0` on. */
  method FirstFitting(field: seq<seq<bool>>, g: Config, startCol: int, d0: nat, attempts: nat) returns (pick: Option<Shape>, d: nat)
    requires ConfigOk(g) && Shaped(field, g.cols) && startCol == StartCol(g.cols)
    ensures match RandomPick(field, g, d0, attempts)
            case Some(e) => pick == Some(Choice(g.oracle, e, g.shapes)) && d == e + 1
            case None => pick == None && d == d0 + attempts
  {
    d := d0;
    var n := 0;
    pick := None;
    while n < attempts
      invariant 0 <= n <= attempts && d == d0 + n
      invariant RandomPick(field, g, d0, attempts) == RandomPick(field, g, d, attempts - n)
      decreases attempts - n
    {
      var blocks := g.shapes[g.oracle(d) % |g.shapes|];
      var ok := CanPlaceAt(field, g.cols, blocks, -2, startCol);
      if ok {
        pick := Some(blocks);
        d := d + 1;
        return;
      }
      d := d + 1;
      n := n + 1;
    }
  }

  /** The loop of `max_height`: the largest `ROWS - r` over the topmost occupied cell r of each column. */
  method Tallest(g: seq<seq<bool>>, cols: int) returns (m: nat)
    requires Shaped(g, cols) && cols >= 0
    ensures m == MaxOf(Heights(g, cols))
  {
    ghost var hs := Heights(g, cols);
    m := 0;
    for c := 0 to cols
      invariant m == MaxOf(hs[..c])
    {
      var r := TopOf(g, cols, c);
      assert hs[c] == ROWS - r;
      if r < ROWS {
        m := if m > ROWS - r then m else ROWS - r;
      }
      assert hs[..c + 1][..c] == hs[..c];
    }
    assert hs[..cols] == hs;
  }

  /** `can_place`: every block is inside the side walls, above the floor, and on a free cell. */
  method CanPlaceAt(field: seq<seq<bool>>, cols: int, blocks: Shape, row: int, col: int) returns (ok: bool)
    requires Shaped(field, cols)
    ensures ok == CanPlace(field, cols, blocks, row, col)
  {
    for k := 0 to |blocks|
      invariant forall t :: 0 <= t < k ==> CellFree(field, cols, row + blocks[t].0, col + blocks[t].1)
    {
      var nr, nc := row + blocks[k].0, col + blocks[k].1;
      if nc < 0 || nc >= cols || nr >= ROWS {
        return false;
      }
      if nr >= 0 && field[nr][nc] {
        return false;
      }
    }
    return true;
  }

  /** `while self.can_place(blocks, row + 1, col): row += 1`. */
  method DropFrom(field: seq<seq<bool>>, cols: int, blocks: Shape, row: int, col: int) returns (landing: int)
    requires Shaped(field, cols) && |blocks| > 0
    ensures landing == LandingRow(field, cols, blocks, row, col)
  {
    landing := row;
    var fits := CanPlaceAt(field, cols, blocks, landing + 1, col);
    while fits
      invariant fits == CanPlace(field, cols, blocks, landing + 1, col)
      invariant LandingRow(field, cols, blocks, landing, col) == LandingRow(field, cols, blocks, row, col)
      decreases ROWS - landing - blocks[0].0
    {
      CanPlaceFloor(field, cols, blocks, landing + 1, col);
      landing := landing + 1;
      fits := CanPlaceAt(field, cols, blocks, landing + 1, col);
    }
  }

  /**
   * `simulate`: drop the piece from row -2 in a copy of the field, write it in, and scan every
   * column from the top for its height and the free cells below its top.
   */
  method Simulate(field: seq<seq<bool>>, cols: int, blocks: Shape, col: int) returns (avgH: real, holes: nat, heights: seq<nat>)
    requires Shaped(field, cols) && cols >= 1 && |blocks| > 0 && ColumnsFit(blocks, col, cols)
    ensures Stats(avgH, holes, heights) == SimStats(field, cols, blocks, col)
  {
    var row := DropFrom(field, cols, blocks, -2, col);
    var temp := StampCells(field, cols, blocks, row, col, true);
    holes, heights := ColumnStats(temp, cols);
    avgH := Sum(heights) as real / cols as real;
  }

  /**
   * The innermost loop of the placement search over one rotation,
   * `for col in range(-minc, self.cols_count - maxc)`: its bounds, then the loop.
   */
  method SearchRotation(field: seq<seq<bool>>, cols: int, blocks: Shape, row: int, acc: Option<Scored<Placement>>, ghost cs: seq<Placement>)
    returns (acc': Option<Scored<Placement>>, ghost cs': seq<Placement>)
    requires Shaped(field, cols) && cols >= 1 && |blocks| > 0
    requires AllLegal(cols, cs) && acc == SearchState(field, cols, cs)
    ensures cs' == cs + ColCandsOf(field, cols, blocks, row)
    ensures AllLegal(cols, cs') && acc' == SearchState(field, cols, cs')
  {
    var lo, hi := -MinCol(blocks), cols - MaxCol(blocks);
    acc', cs' := SearchColumns(field, cols, blocks, row, lo, hi, acc, cs);
    ColCandsOfRange(field, cols, blocks, row, lo, if hi <= lo then lo else hi);
  }

  /**
   * `for col in range(lo, hi)`: skip the columns where the rotation does not fit at `row`, score the
   * others and keep the first with the strictly smallest score.
   */
  method SearchColumns(field: seq<seq<bool>>, cols: int, blocks: Shape, row: int, lo: int, hi: int,
                       acc: Option<Scored<Placement>>, ghost cs: seq<Placement>)
    returns (acc': Option<Scored<Placement>>, ghost cs': seq<Placement>)
    requires Shaped(field, cols) && cols >= 1 && |blocks| > 0
    requires AllLegal(cols, cs) && acc == SearchState(field, cols, cs)
    ensures cs' == cs + ColCands(field, cols, blocks, row, lo, if hi <= lo then lo else hi)
    ensures AllLegal(cols, cs') && acc' == SearchState(field, cols, cs')
  {
    acc', cs' := acc, cs;
    var col := lo;
    while col < hi
      invariant lo <= col && (col <= hi || col == lo)
      invariant cs' == cs + ColCands(field, cols, blocks, row, lo, col)
      invariant AllLegal(cols, cs') && acc' == SearchState(field, cols, cs')
      decreases hi - col
    {
      acc', cs' := TryColumn(field, cols, blocks, row, lo, col, acc', cs, cs');
      col := col + 1;
    }
  }

  /**
   * One pass of that loop: `if not self.can_place(blocks, row, col): continue`, otherwise score the
   * placement and keep it if its score is strictly below the best so far.
   */
  method TryColumn(field: seq<seq<bool>>, cols: int, blocks: Shape, row: int, lo: int, col: int,
                   acc: Option<Scored<Placement>>, ghost base: seq<Placement>, ghost cs: seq<Placement>)
    returns (acc': Option<Scored<Placement>>, ghost cs': seq<Placement>)
    requires Shaped(field, cols) && cols >= 1 && |blocks| > 0 && lo <= col
    requires cs == base + ColCands(field, cols, blocks, row, lo, col)
    requires AllLegal(cols, cs) && acc == SearchState(field, cols, cs)
    ensures cs' == base + ColCands(field, cols, blocks, row, lo, col + 1)
    ensures AllLegal(cols, cs') && acc' == SearchState(field, cols, cs')
  {
    ColCandsSnoc(field, cols, blocks, row, lo, col);
    Seqs.Assoc(base, ColCands(field, cols, blocks, row, lo, col),
               if CanPlace(field, cols, blocks, row, col) then [Placement(blocks, col)] else []);
    acc', cs' := acc, cs;
    var ok := CanPlaceAt(field, cols, blocks, row, col);
    if ok {
      CanPlaceColumnsFit(field, cols, blocks, row, col);
      var p := Placement(blocks, col);
      var score := ScoreAt(field, cols, blocks, col);
      SearchStep(field, cols, cs, p);
      if acc.None? || score < acc.value.score {
        acc' := Some(Scored(p, score));
      }
      cs' := cs + [p];
    }
  }

  /** `simulate` and the score of its statistics. */
  method ScoreAt(field: seq<seq<bool>>, cols: int, blocks: Shape, col: int) returns (score: real)
    requires Shaped(field, cols) && cols >= 1 && Legal(cols, Placement(blocks, col))
    ensures score == ScoreOf(field, cols, Placement(blocks, col))
  {
    var avgH, holes, heights := Simulate(field, cols, blocks, col);
    SimStatsSpec(field, cols, blocks, col);
    var variance := MaxOf(heights) - MinOf(heights);
    score := ALPHA * Abs(avgH - TARGET_HEIGHT) + BETA * holes as real + GAMMA * variance as real;
  }

  /**
   * The placement search of `spawn_new_piece` (over every shape) and of `update` (over the piece
   * alone): every rotation of every shape in turn, every column; the result is the first candidate
   * with the strictly smallest score, `None` when nothing fits at `row`.
   */
  method SearchBest(field: seq<seq<bool>>, cols: int, shs: seq<Shape>, row: int) returns (best: Option<Placement>)
    requires Shaped(field, cols) && cols >= 1 && NonEmpty(shs)
    ensures best == BestOf(field, cols, shs, row)
  {
    var acc: Option<Scored<Placement>> := None;
    ghost var cs: seq<Placement> := [];
    assert shs[..0] == [] && AllLegal(cols, cs);
    for k := 0 to |shs|
      invariant NonEmpty(shs[..k])
      invariant cs == Candidates(field, cols, shs[..k], row)
      invariant AllLegal(cols, cs) && acc == SearchState(field, cols, cs)
    {
      CandidatesSnoc(field, cols, shs, k, row);
      var rots := GetRotations(shs[k]);
      acc, cs := SearchRotations(field, cols, rots, row, acc, cs);
    }
    assert shs[..|shs|] == shs;
    best := if acc.Some? then Some(acc.value.item) else None;
  }

  /** `for blocks in self.get_rotations(base)`: the column loop for each rotation of one shape in turn. */
  method SearchRotations(field: seq<seq<bool>>, cols: int, rots: seq<Shape>, row: int, acc: Option<Scored<Placement>>, ghost cs: seq<Placement>)
    returns (acc': Option<Scored<Placement>>, ghost cs': seq<Placement>)
    requires Shaped(field, cols) && cols >= 1 && NonEmpty(rots)
    requires AllLegal(cols, cs) && acc == SearchState(field, cols, cs)
    ensures cs' == cs + RotCands(field, cols, rots, row)
    ensures AllLegal(cols, cs') && acc' == SearchState(field, cols, cs')
  {
    acc', cs' := acc, cs;
    for j := 0 to |rots|
      invariant NonEmpty(rots[..j])
      invariant cs' == cs + RotCands(field, cols, rots[..j], row)
      invariant AllLegal(cols, cs') && acc' == SearchState(field, cols, cs')
    {
      assert rots[..j + 1][..j] == rots[..j] && rots[..j + 1][j] == rots[j];
      RotCandsUnfold(field, cols, rots[..j + 1], row);
      acc', cs' := SearchRotation(field, cols, rots[j], row, acc', cs');
      Seqs.Assoc(cs, RotCands(field, cols, rots[..j], row), ColCandsOf(field, cols, rots[j], row));
    }
    assert rots[..|rots|] == rots;
  }

  /** `for r, c in blocks: ... if 0 <= nr < ROWS: g[nr][nc] = v`, on a copy of the grid. */
  method StampCells<T>(g: seq<seq<T>>, cols: int, blocks: Shape, row: int, col: int, v: T) returns (r: seq<seq<T>>)
    requires Shaped(g, cols) && ColumnsFit(blocks, col, cols)
    ensures r == Stamp(g, cols, blocks, row, col, v)
  {
    r := g;
    for k := 0 to |blocks|
      invariant ColumnsFit(blocks[..k], col, cols)
      invariant r == Stamp(g, cols, blocks[..k], row, col, v)
    {
      assert blocks[..k + 1][..k] == blocks[..k];
      var nr, nc := row + blocks[k].0, col + blocks[k].1;
      if 0 <= nr < ROWS {
        r := r[nr := r[nr][nc := v]];
      }
    }
    assert blocks[..|blocks|] == blocks;
  }

  /** The scan of every column of the copy in `simulate`: the list of heights and the total of holes. */
  method ColumnStats(g: seq<seq<bool>>, cols: int) returns (holes: nat, heights: seq<nat>)
    requires Shaped(g, cols) && cols >= 0
    ensures heights == Heights(g, cols) && holes == TotalHoles(g, cols, cols)
  {
    heights := [];
    holes := 0;
    for c := 0 to cols
      invariant heights == Heights(g, cols)[..c]
      invariant holes == TotalHoles(g, cols, c)
    {
      holes, heights := AddColumn(g, cols, c, holes, heights);
    }
    assert Heights(g, cols)[..cols] == Heights(g, cols);
  }

  /** One pass of the column loop of `simulate`: scan column c and add its height and holes. */
  method AddColumn(g: seq<seq<bool>>, cols: int, c: int, holes: nat, heights: seq<nat>) returns (holes': nat, heights': seq<nat>)
    requires Shaped(g, cols) && 0 <= c < cols
    requires heights == Heights(g, cols)[..c] && holes == TotalHoles(g, cols, c)
    ensures heights' == Heights(g, cols)[..c + 1] && holes' == TotalHoles(g, cols, c + 1)
  {
    var h, hc := ScanColumn(g, cols, c);
    holes' := holes + hc;
    heights' := heights + [h];
    assert Heights(g, cols)[..c + 1] == Heights(g, cols)[..c] + [h];
  }

  /** The inner loop of `max_height`: the row of the first occupied cell of column c from the top, ROWS when none. */
  method TopOf(g: seq<seq<bool>>, cols: int, c: int) returns (top: nat)
    requires Shaped(g, cols) && 0 <= c < cols
    ensures top == FirstOccupied(Column(g, cols, c))
  {
    ghost var s := Column(g, cols, c);
    top := ROWS;
    for r := 0 to ROWS
      invariant forall i :: 0 <= i < r ==> !s[i]
      invariant top == ROWS
    {
      if g[r][c] {
        top := r;
        break;
      }
    }
    assert top < ROWS ==> s[top];
    assert forall i :: 0 <= i < top ==> !s[i];
  }

  /** `if self.target_blocks in rots`: the next entry after the piece's own, when it fits. */
  method Turn(field: seq<seq<bool>>, cols: int, rots: seq<Shape>, blocks: Shape, row: int, col: int, goal: Shape) returns (r: Shape)
    requires Shaped(field, cols) && blocks in rots
    ensures r == TurnWithin(field, cols, rots, blocks, row, col, goal)
  {
    r := blocks;
    if goal in rots {
      var next := rots[(Seqs.IndexOf(rots, blocks) + 1) % |rots|];
      var ok := CanPlaceAt(field, cols, next, row, col);
      if ok {
        r := next;
      }
    }
  }

  /**
   * The row rebuilding of `lock_piece`: every row whose occupancy row is not full is appended to the
   * new lists in order, the full ones are counted, and as many blank rows are inserted at the top.
   */
  method ClearFullRows(f: seq<seq<bool>>, cf: seq<seq<RGB>>, cols: int) returns (nf: seq<seq<bool>>, ncf: seq<seq<RGB>>)
    requires Shaped(f, cols) && Shaped(cf, cols) && cols >= 0
    ensures nf == ClearLines(f, f, Blank(cols, false))
    ensures ncf == ClearLines(f, cf, Blank(cols, BLACK))
  {
    var kf, kc, cleared := KeepRows(f, cf);
    nf := PrependBlank(kf, cleared, Blank(cols, false));
    ncf := PrependBlank(kc, cleared, Blank(cols, BLACK));
  }

  /** The first loop of the clearing: the rows that are not full, in order, and the number of full ones. */
  method KeepRows(f: seq<seq<bool>>, cf: seq<seq<RGB>>) returns (kf: seq<seq<bool>>, kc: seq<seq<RGB>>, cleared: nat)
    requires |f| == |cf| == ROWS
    ensures kf == KeptRows(f, f, ROWS) && kc == KeptRows(f, cf, ROWS) && cleared == FullCount(f, ROWS)
  {
    kf, kc := [], [];
    cleared := 0;
    for r := 0 to ROWS
      invariant kf == KeptRows(f, f, r) && kc == KeptRows(f, cf, r)
      invariant cleared == FullCount(f, r)
    {
      if Full(f[r]) {
        cleared := cleared + 1;
      } else {
        kf, kc := kf + [f[r]], kc + [cf[r]];
      }
    }
  }

  /** The second loop of the clearing: `insert(0, blank)` done `n` times. */
  method PrependBlank<T>(rows: seq<seq<T>>, n: nat, blank: seq<T>) returns (r: seq<seq<T>>)
    ensures r == Blank(n, blank) + rows
  {
    r := rows;
    for k := 0 to n
      invariant r == Blank(k, blank) + rows
    {
      BlankCons(k, blank);
      r := [blank] + r;
    }
  }

  /** Inserting one more copy at the front. */
  lemma BlankCons<T>(k: nat, v: T)
    ensures [v] + Blank(k, v) == Blank(k + 1, v)
  {
  }

  /**
   * The scan of one column in `simulate`: the first occupied cell from the top gives the height
   * `ROWS - r`, and every free cell after it counts as a hole.
   */
  method ScanColumn(g: seq<seq<bool>>, cols: int, c: int) returns (h: nat, holes: nat)
    requires Shaped(g, cols) && 0 <= c < cols
    ensures h == Height(Column(g, cols, c)) && holes == Holes(Column(g, cols, c))
  {
    ghost var s := Column(g, cols, c);
    var seen := false;
    h, holes := 0, 0;
    for r := 0 to ROWS
      invariant seen <==> FirstOccupied(s[..r]) < r
      invariant h == if seen then ROWS - FirstOccupied(s[..r]) else 0
      invariant holes == Holes(s[..r])
    {
      ScanStep(s, r);
      if g[r][c] {
        if !seen {
          h := ROWS - r;
          seen := true;
        }
      } else if seen {
        holes := holes + 1;
      }
    }
    assert s[..ROWS] == s;
  }
}
