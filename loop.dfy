/**
 * One pass of the loop of `single_game_loop`: a tick of the game, a fresh frame, the changed
 * pixels against the previous frame and the commands built from them.
 */
module GameLoop {
  import opened Display
  import opened Board
  import opened Rules
  import opened Frame
  import opened Game
  import Wire
  import Encoder

  /**
   * `game.update()`, the matrix cleared to black and rendered, the diff against `prev`, then the
   * copy that becomes the next `prev`; the commands are built only when something changed. The
   * matrix ends as the game's picture, and the commands carry exactly the changed cells.
   */
  method Tick(game: TetrisGame, led: array2<RGB>, prev: array2<RGB>)
    returns (changed: seq<Pixel>, cmds: seq<seq<byte>>, next: array2<RGB>)
    modifies game, led
    requires game.Valid() && led != prev
    requires led.Length0 == prev.Length0 == ROWS + 2 && led.Length1 == prev.Length1 == COLS + 2
    requires -1 <= game.colsStart && game.colsStart + game.colsCount <= COLS + 1
    ensures game.Valid() && game.Snapshot() == Step(game.Conf(), old(game.Snapshot()))
    ensures Contents(led) == Picture(game.colsCount, game.colsStart, game.Snapshot())
    ensures changed == Diff(Contents(led), Contents(prev))
    ensures Wire.AllEncodable(changed) && cmds == Wire.Commands(changed)
    ensures fresh(next) && Contents(next) == Contents(led)
  {
    game.Update();
    Redraw(game, led);
    changed, cmds := Changes(led, prev);
    next := CopyMatrix(led);
  }

  /** The matrix cleared to black, then the game rendered into it: the game's picture. */
  method Redraw(game: TetrisGame, led: array2<RGB>)
    modifies led
    requires Shaped(game.field, game.colsCount) && Shaped(game.colorField, game.colsCount)
    requires led.Length0 == ROWS + 2 && led.Length1 == COLS + 2
    requires -1 <= game.colsStart && game.colsStart + game.colsCount <= COLS + 1
    ensures Contents(led) == Picture(game.colsCount, game.colsStart, game.Snapshot())
  {
    ClearMatrix(led);
    game.Render(led);
    PictureContents(led, game.colsCount, game.colsStart, game.Snapshot());
  }

  /** The diff against the previous frame and, when it is not empty, the commands built from it. */
  method Changes(led: array2<RGB>, prev: array2<RGB>) returns (changed: seq<Pixel>, cmds: seq<seq<byte>>)
    requires led.Length0 == prev.Length0 == ROWS + 2 && led.Length1 == prev.Length1 == COLS + 2
    ensures changed == Diff(Contents(led), Contents(prev))
    ensures Wire.AllEncodable(changed) && cmds == Wire.Commands(changed)
  {
    changed := ChangedPixels(led, prev);
    DiffEncodable(Contents(led), Contents(prev));
    if changed == [] {
      cmds := [];
    } else {
      cmds := Encoder.BuildCommandFromPixels(changed);
    }
  }
}
