/** Constants of the display and the colour and pixel values shared by the game, the frame diff and the encoders. */
module Display {

  /** A value carried in one byte of a wire command. */
  type byte = x: int | 0 <= x < 256

  /** Colours are triples of 8-bit channels. */
  datatype RGB = RGB(r: byte, g: byte, b: byte)

  /** One changed LED: its display row and column and its new colour, `(row, col, color)` in the source. */
  datatype Pixel = Pixel(row: int, col: int, color: RGB)

  const ROWS := 18
  const COLS := 20
  const HALF_COLS := COLS / 2
  const HELP_THRESHOLD := 15

  const BLACK := RGB(0, 0, 0)

  const COLOR_PALETTE: seq<RGB> := [
    RGB(10, 0, 80),
    RGB(56, 0, 200),
    RGB(200, 0, 150),
    RGB(108, 0, 142),
    RGB(180, 0, 82),
    RGB(95, 24, 13)
  ]
}
