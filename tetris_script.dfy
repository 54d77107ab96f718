/**
 * The standalone script `tetris.py`: its copy of `build_command_from_pixels` (without the early
 * return) and the part of `send_commands` that cuts each command into writes of at most `mtu - 3`
 * bytes. The BLE write itself is not modelled: the writes are returned in the order they are issued.
 */
module TetrisScript {
  import opened Display
  import opened Seqs
  import opened Wire

  /** The attribute default used when the client reports no `mtu_size`. */
  const DEFAULT_MTU := 23

  /** Same result as the game service's encoder, reached by the loop alone. */
  method BuildCommandFromPixels(pixels: seq<Pixel>) returns (commands: seq<seq<byte>>)
    requires AllEncodable(pixels)
    ensures commands == Commands(pixels)
  {
    commands := [];
    var i := 0;
    while i < |pixels|
      invariant 0 <= i
      invariant AllEncodable(pixels[Min(i, |pixels|)..])
      invariant commands + Commands(pixels[Min(i, |pixels|)..]) == Commands(pixels)
      decreases |pixels| - i
    {
      CommandsAt(pixels, i);
      var chunk := pixels[i..Min(i + 10, |pixels|)];
      var cmd := BuildGroupCommand(chunk);
      Assoc(commands, [cmd], Commands(pixels[Min(i + 10, |pixels|)..]));
      commands := commands + [cmd];
      i := i + 10;
    }
    assert pixels[Min(i, |pixels|)..] == [];
    assert Commands([]) == [];
  }

  /** What `send_commands` does with a list of commands: the writes it issues, or the `ValueError` of a zero step. */
  datatype SendOutcome = Writes(chunks: seq<seq<byte>>) | ZeroStep

  /** The writes for every command in turn: `cmd[i:i+step]` for i = 0, step, 2*step, ... */
  function Fragments(commands: seq<seq<byte>>, step: nat): seq<seq<byte>>
    requires step > 0
  {
    if commands == [] then [] else Chunks(commands[0], step) + Fragments(commands[1..], step)
  }

  /**
   * `range(0, len(cmd), mtu - 3)`: a zero step raises before anything is written,
   * a negative step gives an empty range, so nothing is written.
   */
  function SendSpec(commands: seq<seq<byte>>, mtu: int): SendOutcome
  {
    var step := mtu - 3;
    if step > 0 then Writes(Fragments(commands, step))
    else if step == 0 && commands != [] then ZeroStep
    else Writes([])
  }

  /** The inner loop of `send_commands`: `cmd[i:i+max_payload]` for i in `range(0, len(cmd), max_payload)`. */
  method SliceCommand(cmd: seq<byte>, maxPayload: nat) returns (pieces: seq<seq<byte>>)
    requires maxPayload > 0
    ensures pieces == Chunks(cmd, maxPayload)
  {
    pieces := [];
    var i := 0;
    while i < |cmd|
      invariant 0 <= i
      invariant pieces + Chunks(cmd[Min(i, |cmd|)..], maxPayload) == Chunks(cmd, maxPayload)
      decreases |cmd| - i
    {
      var piece := cmd[i..Min(i + maxPayload, |cmd|)];
      ChunksAt(cmd, maxPayload, i);
      Assoc(pieces, [piece], Chunks(cmd[Min(i + maxPayload, |cmd|)..], maxPayload));
      pieces := pieces + [piece];
      i := i + maxPayload;
    }
  }

  /** `mtu` is the client's reported `mtu_size` (DEFAULT_MTU when it reports none). */
  method SendCommands(commands: seq<seq<byte>>, mtu: int) returns (outcome: SendOutcome)
    ensures outcome == SendSpec(commands, mtu)
  {
    var maxPayload := mtu - 3;
    if maxPayload == 0 && commands != [] {
      return ZeroStep;
    }
    if maxPayload <= 0 {
      return Writes([]);
    }
    var writes: seq<seq<byte>> := [];
    var j := 0;
    while j < |commands|
      invariant 0 <= j <= |commands|
      invariant writes + Fragments(commands[j..], maxPayload) == Fragments(commands, maxPayload)
    {
      var tail := commands[j..];
      assert tail[0] == commands[j] && tail[1..] == commands[j + 1..];
      assert Fragments(tail, maxPayload) == Chunks(commands[j], maxPayload) + Fragments(commands[j + 1..], maxPayload);
      var pieces := SliceCommand(commands[j], maxPayload);
      writes := writes + pieces;
      j := j + 1;
    }
    assert commands[j..] == [];
    outcome := Writes(writes);
  }

  /** Every write is between 1 and `mtu - 3` bytes long. */
  lemma {:induction false} FragmentSizes(commands: seq<seq<byte>>, step: nat)
    requires step > 0
    ensures forall w :: w in Fragments(commands, step) ==> 1 <= |w| <= step
  {
    if commands != [] {
      FragmentSizes(commands[1..], step);
      var first := Chunks(commands[0], step);
      assert forall w :: w in first ==> 1 <= |w| <= step by {
        forall w | w in first ensures 1 <= |w| <= step {
          var k :| 0 <= k < |first| && first[k] == w;
        }
      }
    }
  }

  /** The writes, concatenated in order, are the commands, concatenated in order. */
  lemma {:induction false} FragmentsReassemble(commands: seq<seq<byte>>, step: nat)
    requires step > 0
    ensures Flatten(Fragments(commands, step)) == Flatten(commands)
  {
    if commands != [] {
      FragmentsReassemble(commands[1..], step);
      ChunksFlatten(commands[0], step);
      FlattenAppend(Chunks(commands[0], step), Fragments(commands[1..], step));
    }
  }

  /** With the default MTU every 54-byte command goes out as writes of 20, 20 and 14 bytes. */
  lemma DefaultMtuSplit(cmd: seq<byte>)
    requires |cmd| == COMMAND_LENGTH
    ensures SendSpec([cmd], DEFAULT_MTU) == Writes([cmd[..20], cmd[20..40], cmd[40..]])
  {
    var step := DEFAULT_MTU - 3;
    assert cmd[20..][20..] == cmd[40..];
    assert cmd[20..][..20] == cmd[20..40];
    assert cmd[40..][..14] == cmd[40..];
    assert cmd[40..][14..] == [];
    assert Chunks(cmd[40..], step) == [cmd[40..]];
    assert Chunks(cmd[20..], step) == [cmd[20..40]] + Chunks(cmd[40..], step);
    assert Chunks(cmd, step) == [cmd[..20]] + Chunks(cmd[20..], step);
    assert Fragments([cmd], step) == Chunks(cmd, step) + Fragments([], step);
  }
}
