/** `build_command_from_pixels` of the game service: changed pixels to per-pixel wire commands. */
module Encoder {
  import opened Display
  import opened Seqs
  import opened Wire

  /** No commands for an empty list; otherwise one 54-byte command per group of ten pixels, in order. */
  method BuildCommandFromPixels(pixels: seq<Pixel>) returns (commands: seq<seq<byte>>)
    requires AllEncodable(pixels)
    ensures commands == Commands(pixels)
  {
    if |pixels| == 0 {
      CommandsCount(pixels);
      return [];
    }
    commands := [];
    var i := 0;
    while i < |pixels|
      invariant 0 <= i
      invariant AllEncodable(pixels[Min(i, |pixels|)..])
      invariant commands + Commands(pixels[Min(i, |pixels|)..]) == Commands(pixels)
      decreases |pixels| - i
    {
      CommandsAt(pixels, i);
      var chunk := pixels[i..Min(i + 10, |pixels|)];
      var cmd := BuildGroupCommand(chunk);
      Assoc(commands, [cmd], Commands(pixels[Min(i + 10, |pixels|)..]));
      commands := commands + [cmd];
      i := i + 10;
    }
  }
}
