/**
 * The rules of one `TetrisGame` as functions on a snapshot of its state: spawning a piece, locking it,
 * and one `update` tick. The class in module Game is proved to follow them; the lemmas here state what
 * the rules guarantee.
 *
 * The random generator of the source is an oracle: the n-th value it yields is `oracle(n)`, and
 * `rng.choice(xs)` with `draws` earlier draws picks `xs[oracle(draws) % |xs|]`.
 */
module Rules {
  import opened Wrappers
  import opened Display
  import opened Pieces
  import opened Board
  import opened Search
  import opened Planner

  /**
   * A failed random spawn retries by recursion; the source gives up only when the interpreter's
   * recursion limit (1000 frames by default) is hit. The model stops after this many draws.
   */
  const SPAWN_ATTEMPTS := 1000

  /** The fields of a `TetrisGame` that change (`cols_start`, `cols_count` and the generator do not). */
  datatype State = State(
    draws: nat,
    field: seq<seq<bool>>,
    colorField: seq<seq<RGB>>,
    blocks: Shape,
    row: int,
    col: int,
    color: RGB,
    gameOver: bool,
    locked: nat,
    target: Option<Placement>)

  /**
   * What stays fixed during a game: the number of columns, the shapes of `TETROMINOS` in dictionary
   * order, and the generator.
   */
  datatype Config = Config(cols: int, shapes: seq<Shape>, oracle: nat -> nat)

  /** At least one column and at least one shape, and no shape without blocks. */
  predicate ConfigOk(g: Config)
  {
    g.cols >= 1 && |g.shapes| > 0 && NonEmpty(g.shapes)
  }

  /** `rng.choice(xs)` when `draws` values have been drawn before. */
  function Choice<T>(oracle: nat -> nat, draws: nat, xs: seq<T>): T
    requires |xs| > 0
  {
    xs[oracle(draws) % |xs|]
  }

  /** `cols_count // 2 - 1`, the spawn column. */
  function StartCol(cols: int): int
    requires cols >= 0
  {
    cols / 2 - 1
  }

  /** A grid of `ROWS` rows of `cols` copies of `v`. */
  function BlankGrid<T>(cols: nat, v: T): (g: seq<seq<T>>)
    ensures Shaped(g, cols)
  {
    Blank(ROWS, Blank(cols, v))
  }

  /** The state `__init__` sets up before its call of `spawn_new_piece`. */
  function Initial(cols: nat): State
  {
    State(0, BlankGrid(cols, false), BlankGrid(cols, BLACK), [], -2, StartCol(cols), COLOR_PALETTE[0], false, 0, None)
  }

  /** The grids are well formed and agree, no row is full, and a live piece sits where it fits. */
  predicate Inv(cols: int, s: State)
  {
    cols >= 1 && Shaped(s.field, cols) && Shaped(s.colorField, cols) && ColorsConsistent(s.field, s.colorField, cols) &&
    NoFullRow(s.field) &&
    (!s.gameOver ==> |s.blocks| > 0 && CanPlace(s.field, cols, s.blocks, s.row, s.col))
  }

  /** What `spawn_new_piece` needs of the grids. */
  predicate Grids(cols: int, s: State)
  {
    cols >= 1 && Shaped(s.field, cols) && Shaped(s.colorField, cols) && ColorsConsistent(s.field, s.colorField, cols) &&
    NoFullRow(s.field)
  }

  /** `max_height()`: the tallest column. */
  function MaxHeight(field: seq<seq<bool>>, cols: int): nat
    requires Shaped(field, cols) && cols >= 0
  {
    MaxOf(Heights(field, cols))
  }

  // ---------------------------------------------------------------------------------------------
  // spawn_new_piece

  /** The random branch: the first draw, of `attempts` draws from `draws` on, whose shape fits at the spawn point. */
  function RandomPick(field: seq<seq<bool>>, g: Config, draws: nat, attempts: nat): Option<nat>
    requires ConfigOk(g) && Shaped(field, g.cols)
    decreases attempts
  {
    if attempts == 0 then None
    else if DrawFits(field, g, draws) then Some(draws)
    else RandomPick(field, g, draws + 1, attempts - 1)
  }

  /** The shape drawn at draw d fits at the spawn point. */
  predicate DrawFits(field: seq<seq<bool>>, g: Config, d: nat)
    requires ConfigOk(g) && Shaped(field, g.cols)
  {
    CanPlace(field, g.cols, Choice(g.oracle, d, g.shapes), -2, StartCol(g.cols))
  }

  /**
   * The random branch picks the first fitting draw: it lies among the attempted draws, its shape fits,
   * and no earlier attempted draw fits; it picks nothing exactly when no attempted draw fits.
   */
  lemma {:induction false} RandomPickSpec(field: seq<seq<bool>>, g: Config, draws: nat, attempts: nat)
    requires ConfigOk(g) && Shaped(field, g.cols)
    ensures var r := RandomPick(field, g, draws, attempts);
            (r.Some? ==> draws <= r.value < draws + attempts && DrawFits(field, g, r.value) &&
                         forall d :: draws <= d < r.value ==> !DrawFits(field, g, d)) &&
            (r.None? ==> forall d :: draws <= d < draws + attempts ==> !DrawFits(field, g, d))
    decreases attempts
  {
    if attempts > 0 && !DrawFits(field, g, draws) {
      RandomPickSpec(field, g, draws + 1, attempts - 1);
    }
  }

  /** How a spawn ends: a piece and column with the draws used so far, or no piece (`game_over`). */
  datatype SpawnOutcome = Placed(blocks: Shape, col: int, draws: nat) | NoPlacement(draws: nat)

  /** The choice of piece and column: help mode from `HELP_THRESHOLD` on, a random shape below it. */
  function SpawnChoice(field: seq<seq<bool>>, g: Config, draws: nat): SpawnOutcome
    requires ConfigOk(g) && Shaped(field, g.cols)
  {
    if MaxHeight(field, g.cols) >= HELP_THRESHOLD then HelpOutcome(field, g, draws) else RandomOutcome(field, g, draws)
  }

  /** The help branch: the best placement of any shape from row -2, with no draw. */
  function HelpOutcome(field: seq<seq<bool>>, g: Config, draws: nat): SpawnOutcome
    requires ConfigOk(g) && Shaped(field, g.cols)
  {
    match BestOf(field, g.cols, g.shapes, -2)
    case Some(p) => Placed(p.blocks, p.col, draws)
    case None => NoPlacement(draws)
  }

  /** The random branch: the first drawn shape that fits at the start column, one draw per attempt. */
  function RandomOutcome(field: seq<seq<bool>>, g: Config, draws: nat): SpawnOutcome
    requires ConfigOk(g) && Shaped(field, g.cols)
  {
    match RandomPick(field, g, draws, SPAWN_ATTEMPTS)
    case Some(d) => Placed(Choice(g.oracle, d, g.shapes), StartCol(g.cols), d + 1)
    case None => NoPlacement(draws + SPAWN_ATTEMPTS)
  }

  /**
   * `spawn_new_piece`: with no piece, only `game_over` is set; otherwise the piece starts at row -2 with
   * a colour drawn from the palette, the target is forgotten, and the game ends if the piece does not fit.
   */
  function Spawn(g: Config, s: State): State
    requires ConfigOk(g) && Shaped(s.field, g.cols)
  {
    Place(g, s, SpawnChoice(s.field, g, s.draws))
  }

  /** The state after the choice `o` is made: the outcome's draws replace those of `s`. */
  function Place(g: Config, s: State, o: SpawnOutcome): State
    requires Shaped(s.field, g.cols)
  {
    match o
    case NoPlacement(d) => s.(gameOver := true, draws := d)
    case Placed(b, c, d) =>
      s.(blocks := b, col := c, row := -2, color := Choice(g.oracle, d, COLOR_PALETTE), draws := d + 1, target := None,
         gameOver := s.gameOver || !CanPlace(s.field, g.cols, b, -2, c))
  }

  /** Placing does not depend on the draw count before the choice. */
  lemma PlaceDraws(g: Config, s: State, o: SpawnOutcome, d: nat)
    requires Shaped(s.field, g.cols)
    ensures Place(g, s.(draws := d), o) == Place(g, s, o)
  {
  }

  /** The help-mode choice is a candidate, the first with the smallest score. */
  lemma HelpChoice(field: seq<seq<bool>>, g: Config, draws: nat)
    requires ConfigOk(g) && Shaped(field, g.cols) && MaxHeight(field, g.cols) >= HELP_THRESHOLD
    ensures AllLegal(g.cols, Candidates(field, g.cols, g.shapes, -2))
    ensures Candidates(field, g.cols, g.shapes, -2) == [] <==> SpawnChoice(field, g, draws).NoPlacement?
    ensures var o, cands := SpawnChoice(field, g, draws), Candidates(field, g.cols, g.shapes, -2);
            o.Placed? ==>
              o.draws == draws && Placement(o.blocks, o.col) in cands &&
              exists i :: FirstMin(Scores(field, g.cols, cands), i) && cands[i] == Placement(o.blocks, o.col)
  {
    var cands := Candidates(field, g.cols, g.shapes, -2);
    CandidatesLegal(field, g.cols, g.shapes, -2);
    BestSpec(field, g.cols, cands);
  }

  /**
   * Help mode: the game ends exactly when no shape fits anywhere at row -2; otherwise the piece is
   * the first (shape, rotation, column) candidate with the smallest score, a rotation of one of the
   * shapes at a position where it fits, and no value is drawn for it.
   */
  lemma SpawnHelpMode(field: seq<seq<bool>>, g: Config, draws: nat)
    requires ConfigOk(g) && Shaped(field, g.cols) && MaxHeight(field, g.cols) >= HELP_THRESHOLD
    ensures AllLegal(g.cols, Candidates(field, g.cols, g.shapes, -2))
    ensures Candidates(field, g.cols, g.shapes, -2) == [] <==> SpawnChoice(field, g, draws).NoPlacement?
    ensures var o, cands := SpawnChoice(field, g, draws), Candidates(field, g.cols, g.shapes, -2);
            o.Placed? ==>
              o.draws == draws &&
              (exists i :: FirstMin(Scores(field, g.cols, cands), i) && cands[i] == Placement(o.blocks, o.col)) &&
              (exists k :: 0 <= k < |g.shapes| && o.blocks in Rotations(g.shapes[k])) &&
              CanPlace(field, g.cols, o.blocks, -2, o.col)
  {
    HelpChoice(field, g, draws);
    var o := SpawnChoice(field, g, draws);
    if o.Placed? {
      CandidatesSpec(field, g.cols, g.shapes, -2, Placement(o.blocks, o.col));
    }
  }

  /**
   * Below the help threshold the piece is the shape of the first fitting draw, put at the spawn column;
   * no piece means none of the `SPAWN_ATTEMPTS` draws fitted.
   */
  lemma SpawnRandomMode(field: seq<seq<bool>>, g: Config, draws: nat)
    requires ConfigOk(g) && Shaped(field, g.cols) && MaxHeight(field, g.cols) < HELP_THRESHOLD
    ensures var o := SpawnChoice(field, g, draws);
            (o.Placed? ==>
               exists d :: draws <= d < draws + SPAWN_ATTEMPTS && o.draws == d + 1 &&
                           o.blocks == Choice(g.oracle, d, g.shapes) && o.col == StartCol(g.cols) &&
                           DrawFits(field, g, d) && forall e :: draws <= e < d ==> !DrawFits(field, g, e)) &&
            (o.NoPlacement? ==>
               o.draws == draws + SPAWN_ATTEMPTS && forall e :: draws <= e < draws + SPAWN_ATTEMPTS ==> !DrawFits(field, g, e))
  {
    RandomPickSpec(field, g, draws, SPAWN_ATTEMPTS);
  }

  /** A spawned piece always fits where it is put, so the source's final `can_place` check never ends the game. */
  lemma SpawnChoiceFits(field: seq<seq<bool>>, g: Config, draws: nat)
    requires ConfigOk(g) && Shaped(field, g.cols)
    ensures var o := SpawnChoice(field, g, draws);
            o.draws >= draws && (o.Placed? ==> |o.blocks| > 0 && CanPlace(field, g.cols, o.blocks, -2, o.col))
  {
    if MaxHeight(field, g.cols) >= HELP_THRESHOLD {
      SpawnHelpMode(field, g, draws);
    } else {
      RandomPickSpec(field, g, draws, SPAWN_ATTEMPTS);
    }
  }

  /** Below the help threshold rows 0 .. ROWS - HELP_THRESHOLD are empty. */
  lemma TopRowsFree(field: seq<seq<bool>>, cols: int, i: int, j: int)
    requires Shaped(field, cols) && cols >= 0 && MaxHeight(field, cols) < HELP_THRESHOLD
    requires 0 <= i <= ROWS - HELP_THRESHOLD && 0 <= j < cols
    ensures !field[i][j]
  {
    var s := Column(field, cols, j);
    assert Heights(field, cols)[j] == Height(s);
    HeightSpec(s);
    assert s[i] == field[i][j];
  }

  /** Every block of every shape lies in rows 0 .. 3 and columns 0 .. 2 of the shape's own frame. */
  predicate InBox(shapes: seq<Shape>)
  {
    forall k, t :: 0 <= k < |shapes| && 0 <= t < |shapes[k]| ==> 0 <= shapes[k][t].0 <= 3 && 0 <= shapes[k][t].1 <= 2
  }

  /** The tetrominoes in `TETROMINOS` order, as the game is set up with. */
  lemma TetrominosOk(oracle: nat -> nat, cols: int)
    requires cols >= 1
    ensures ConfigOk(Config(cols, TETROMINOS, oracle)) && InBox(TETROMINOS)
  {
  }

  /** A shape inside the box fits at the spawn point of a board below the help threshold. */
  lemma FitsAtSpawn(field: seq<seq<bool>>, cols: int, bs: Shape)
    requires Shaped(field, cols) && cols >= 3 && MaxHeight(field, cols) < HELP_THRESHOLD
    requires forall t :: 0 <= t < |bs| ==> 0 <= bs[t].0 <= 3 && 0 <= bs[t].1 <= 2
    ensures CanPlace(field, cols, bs, -2, StartCol(cols))
  {
    forall t | 0 <= t < |bs| ensures CellFree(field, cols, -2 + bs[t].0, StartCol(cols) + bs[t].1) {
      var nr, nc := -2 + bs[t].0, StartCol(cols) + bs[t].1;
      if nr >= 0 {
        TopRowsFree(field, cols, nr, nc);
      }
    }
  }

  /**
   * On a board below the help threshold and at least three columns wide every tetromino fits at the
   * spawn point, so the first random draw is taken and the retry never happens.
   */
  lemma LowBoardFirstDraw(field: seq<seq<bool>>, g: Config, draws: nat)
    requires ConfigOk(g) && InBox(g.shapes) && Shaped(field, g.cols) && g.cols >= 3
    requires MaxHeight(field, g.cols) < HELP_THRESHOLD
    ensures SpawnChoice(field, g, draws) == Placed(Choice(g.oracle, draws, g.shapes), StartCol(g.cols), draws + 1)
  {
    var k := g.oracle(draws) % |g.shapes|;
    FitsAtSpawn(field, g.cols, g.shapes[k]);
    assert DrawFits(field, g, draws);
  }

  lemma ChoiceIn<T>(oracle: nat -> nat, d: nat, xs: seq<T>)
    requires |xs| > 0
    ensures Choice(oracle, d, xs) in xs
  {
  }

  /** A spawn keeps the grids and the lock count; with no piece it changes only `game_over` and the draws. */
  lemma SpawnSpec(g: Config, s: State)
    requires ConfigOk(g) && Shaped(s.field, g.cols)
    ensures var r := Spawn(g, s);
            r.field == s.field && r.colorField == s.colorField && r.locked == s.locked && r.draws >= s.draws
    ensures var r := Spawn(g, s);
            SpawnChoice(s.field, g, s.draws).NoPlacement? ==> r == s.(gameOver := true, draws := r.draws)
    ensures var r := Spawn(g, s);
            SpawnChoice(s.field, g, s.draws).Placed? ==>
              r.row == -2 && r.target == None && r.color in COLOR_PALETTE && r.gameOver == s.gameOver &&
              |r.blocks| > 0 && CanPlace(r.field, g.cols, r.blocks, r.row, r.col)
  {
    var o := SpawnChoice(s.field, g, s.draws);
    SpawnChoiceFits(s.field, g, s.draws);
    ChoiceIn(g.oracle, o.draws, COLOR_PALETTE);
  }

  /** A spawn on well-formed grids gives a state that satisfies the invariant. */
  lemma SpawnInv(g: Config, s: State)
    requires ConfigOk(g) && Grids(g.cols, s)
    ensures Inv(g.cols, Spawn(g, s))
  {
    SpawnSpec(g, s);
  }

  /** The state after `__init__`. */
  function Start(g: Config): State
    requires ConfigOk(g)
  {
    Spawn(g, Initial(g.cols))
  }

  /** A new game has an empty board, no locked piece, and satisfies the invariant. */
  lemma StartSpec(g: Config)
    requires ConfigOk(g)
    ensures var s := Start(g);
            Inv(g.cols, s) && s.locked == 0 && s.field == BlankGrid(g.cols, false)
  {
    var s0 := Initial(g.cols);
    forall i | 0 <= i < ROWS ensures !Full(s0.field[i]) {
      assert !s0.field[i][0];
    }
    SpawnInv(g, s0);
    SpawnSpec(g, s0);
  }

  // ---------------------------------------------------------------------------------------------
  // lock_piece

  /** The occupancy grid with the live piece written in. */
  function Stamped(cols: int, s: State): (f: seq<seq<bool>>)
    requires Inv(cols, s) && !s.gameOver
    ensures Shaped(f, cols)
  {
    CanPlaceColumnsFit(s.field, cols, s.blocks, s.row, s.col);
    Stamp(s.field, cols, s.blocks, s.row, s.col, true)
  }

  /** The colour grid with the live piece written in. */
  function StampedColors(cols: int, s: State): (cf: seq<seq<RGB>>)
    requires Inv(cols, s) && !s.gameOver
    ensures Shaped(cf, cols)
  {
    CanPlaceColumnsFit(s.field, cols, s.blocks, s.row, s.col);
    Stamp(s.colorField, cols, s.blocks, s.row, s.col, s.color)
  }

  /** The grids after the piece is written in and the full rows are cleared, with the lock counted. */
  function Cleared(cols: int, s: State): (r: State)
    requires Inv(cols, s) && !s.gameOver
    ensures Grids(cols, r)
  {
    var f, cf := Stamped(cols, s), StampedColors(cols, s);
    CanPlaceColumnsFit(s.field, cols, s.blocks, s.row, s.col);
    StampColors(s.field, s.colorField, cols, s.blocks, s.row, s.col, s.color);
    ClearLinesColors(f, cf, cols);
    ClearLinesNoFullRow(f, cols);
    s.(field := ClearLines(f, f, Blank(cols, false)), colorField := ClearLines(f, cf, Blank(cols, BLACK)), locked := s.locked + 1)
  }

  /** `lock_piece`: write the piece in, count it, clear the full rows, spawn the next piece. */
  function Lock(g: Config, s: State): State
    requires ConfigOk(g) && Inv(g.cols, s) && !s.gameOver
  {
    Spawn(g, Cleared(g.cols, s))
  }

  /** Locking counts exactly one more piece, leaves the cleared grids, and keeps the invariant. */
  lemma LockSpec(g: Config, s: State)
    requires ConfigOk(g) && Inv(g.cols, s) && !s.gameOver
    ensures var r, m := Lock(g, s), Cleared(g.cols, s);
            Inv(g.cols, r) && r.locked == s.locked + 1 && r.field == m.field && r.colorField == m.colorField
  {
    var m := Cleared(g.cols, s);
    SpawnInv(g, m);
    SpawnSpec(g, m);
  }

  /** Each cell of the stamped grids: occupied, in the piece's colour, where the piece covers it, as before elsewhere. */
  lemma StampedCell(cols: int, s: State, i: int, j: int)
    requires Inv(cols, s) && !s.gameOver && 0 <= i < ROWS && 0 <= j < cols
    ensures Stamped(cols, s)[i][j] == (Covers(s.blocks, s.row, s.col, i, j) || s.field[i][j])
    ensures StampedColors(cols, s)[i][j] == if Covers(s.blocks, s.row, s.col, i, j) then s.color else s.colorField[i][j]
  {
    CanPlaceColumnsFit(s.field, cols, s.blocks, s.row, s.col);
    StampCell(s.field, cols, s.blocks, s.row, s.col, true, i, j);
    StampCell(s.colorField, cols, s.blocks, s.row, s.col, s.color, i, j);
  }

  // ---------------------------------------------------------------------------------------------
  // update

  /** The target of this tick: the remembered one, or the best placement from where the piece is. */
  function TargetOf(cols: int, s: State): Placement
    requires Inv(cols, s) && !s.gameOver
  {
    if s.target.Some? then s.target.value else TargetFor(s.field, cols, s.blocks, s.row, s.col)
  }

  /** The first part of one tick: fix the target, steer one column toward it, maybe rotate. */
  function Steered(cols: int, s: State): (r: State)
    requires Inv(cols, s) && !s.gameOver
    ensures Inv(cols, r) && !r.gameOver
  {
    var t := TargetOf(cols, s);
    var c := SteerCol(s.field, cols, s.blocks, s.row, s.col, t.col);
    SteerColLegal(s.field, cols, s.blocks, s.row, s.col, t.col);
    var b := RotateToward(s.field, cols, s.blocks, s.row, c, t.blocks);
    RotateTowardLegal(s.field, cols, s.blocks, s.row, c, t.blocks);
    RotateTowardSpec(s.field, cols, s.blocks, s.row, c, t.blocks);
    s.(target := Some(t), col := c, blocks := b)
  }

  /** `update`: nothing once the game is over; otherwise steer and rotate, then fall one row or lock. */
  function Step(g: Config, s: State): State
    requires ConfigOk(g) && Inv(g.cols, s)
  {
    if s.gameOver then s
    else
      var m := Steered(g.cols, s);
      if CanPlace(m.field, g.cols, m.blocks, m.row + 1, m.col) then m.(row := m.row + 1) else Lock(g, m)
  }

  /**
   * Steering sets the target and moves at most one column, never away from the target column, to a
   * column where the piece fits; a rotation happens only from row 3 on, toward a different target
   * that is among the piece's rotations, and is one quarter turn to a position where it fits. The
   * grids and the row do not change.
   */
  lemma SteeredSpec(cols: int, s: State)
    requires Inv(cols, s) && !s.gameOver
    ensures var r, t := Steered(cols, s), TargetOf(cols, s);
            r.target == Some(t) && r.field == s.field && r.colorField == s.colorField && r.row == s.row &&
            r.locked == s.locked && r.draws == s.draws && r.color == s.color &&
            s.col - 1 <= r.col <= s.col + 1 && (r.col - t.col) * (s.col - t.col) >= 0 &&
            CanPlace(s.field, cols, s.blocks, s.row, r.col) &&
            (r.blocks == s.blocks ||
             (s.row >= 3 && s.blocks != t.blocks && t.blocks in Rotations(s.blocks) && r.blocks == Rotate(s.blocks))) &&
            CanPlace(s.field, cols, r.blocks, s.row, r.col)
  {
    var t := TargetOf(cols, s);
    var c := SteerCol(s.field, cols, s.blocks, s.row, s.col, t.col);
    SteerColSpec(s.field, cols, s.blocks, s.row, s.col, t.col);
    SteerColLegal(s.field, cols, s.blocks, s.row, s.col, t.col);
    RotateTowardSpec(s.field, cols, s.blocks, s.row, c, t.blocks);
    RotateTowardLegal(s.field, cols, s.blocks, s.row, c, t.blocks);
  }

  /** A finished game does not change. */
  lemma StepGameOver(g: Config, s: State)
    requires ConfigOk(g) && Inv(g.cols, s) && s.gameOver
    ensures Step(g, s) == s
  {
  }

  /** A tick keeps the invariant. */
  lemma StepInv(g: Config, s: State)
    requires ConfigOk(g) && Inv(g.cols, s)
    ensures Inv(g.cols, Step(g, s))
  {
    if !s.gameOver {
      var m := Steered(g.cols, s);
      if !CanPlace(m.field, g.cols, m.blocks, m.row + 1, m.col) {
        LockSpec(g, m);
      }
    }
  }

  /**
   * A live tick either moves the steered piece down exactly one row, with the grids and lock count
   * unchanged, or, when it cannot move down, locks it and counts one more piece.
   */
  lemma StepSpec(g: Config, s: State)
    requires ConfigOk(g) && Inv(g.cols, s) && !s.gameOver
    ensures var m, r := Steered(g.cols, s), Step(g, s);
            if CanPlace(s.field, g.cols, m.blocks, s.row + 1, m.col)
            then r == m.(row := s.row + 1) && r.field == s.field && r.locked == s.locked
            else r == Lock(g, m) && r.locked == s.locked + 1
  {
    var m := Steered(g.cols, s);
    SteeredSpec(g.cols, s);
    if !CanPlace(s.field, g.cols, m.blocks, s.row + 1, m.col) {
      LockSpec(g, m);
    }
  }
}
