/**
 * The per-pixel wire command of the LED curtain: a 3-byte header `7e 07 64`, ten 5-byte entries
 * `row col R G B` (unused entries are `ff ff ff ff ff`) and the trailer `ef`, 54 bytes in all.
 * A list of changed pixels is sent as one such command per group of at most ten pixels.
 */
module Wire {
  import opened Display
  import opened Seqs

  const HEADER: seq<byte> := [0x7e, 0x07, 0x64]
  const TRAILER: byte := 0xef
  const PAD_ENTRY: seq<byte> := [0xff, 0xff, 0xff, 0xff, 0xff]
  /** Ten entries of five bytes between the 3-byte header and the 1-byte trailer: 3 + 10 * 5 + 1. */
  const COMMAND_LENGTH := 54

  /** `f"{row:02x}{col:02x}"` is two bytes only for coordinates in 0..255. */
  predicate Encodable(p: Pixel)
  {
    0 <= p.row < 256 && 0 <= p.col < 256
  }

  predicate AllEncodable(ps: seq<Pixel>)
  {
    forall p :: p in ps ==> Encodable(p)
  }

  /** The pixel whose entry is indistinguishable from a padding entry. */
  predicate IsPaddingPixel(p: Pixel)
  {
    p.row == 0xff && p.col == 0xff && p.color == RGB(0xff, 0xff, 0xff)
  }

  /** The five bytes `row col R G B` of one pixel. */
  function Entry(p: Pixel): seq<byte>
    requires Encodable(p)
  {
    [p.row, p.col, p.color.r, p.color.g, p.color.b]
  }

  /** The real entries of a group, in input order. */
  function Entries(chunk: seq<Pixel>): (b: seq<byte>)
    requires AllEncodable(chunk)
    ensures |b| == 5 * |chunk|
  {
    if chunk == [] then [] else Entry(chunk[0]) + Entries(chunk[1..])
  }

  /** `m` padding entries. */
  function Padding(m: nat): (b: seq<byte>)
    ensures |b| == 5 * m
  {
    if m == 0 then [] else PAD_ENTRY + Padding(m - 1)
  }

  /** Entry k of the body is the entry of pixel k. */
  lemma {:induction false} EntriesSlot(chunk: seq<Pixel>, k: nat)
    requires AllEncodable(chunk) && k < |chunk|
    ensures Entries(chunk)[5 * k .. 5 * k + 5] == Entry(chunk[k])
  {
    if k > 0 {
      EntriesSlot(chunk[1..], k - 1);
      var rest := Entries(chunk[1..]);
      assert (Entry(chunk[0]) + rest)[5 * k .. 5 * k + 5] == rest[5 * (k - 1) .. 5 * (k - 1) + 5];
    }
  }

  /** Every padding slot is `ff ff ff ff ff`. */
  lemma {:induction false} PaddingSlot(m: nat, k: nat)
    requires k < m
    ensures Padding(m)[5 * k .. 5 * k + 5] == PAD_ENTRY
  {
    if k > 0 {
      PaddingSlot(m - 1, k - 1);
      var rest := Padding(m - 1);
      assert (PAD_ENTRY + rest)[5 * k .. 5 * k + 5] == rest[5 * (k - 1) .. 5 * (k - 1) + 5];
    }
  }

  /** The command for one group of at most ten pixels: header, real entries, `10 - n` padding entries, trailer. */
  function Command(chunk: seq<Pixel>): (cmd: seq<byte>)
    requires |chunk| <= 10 && AllEncodable(chunk)
    ensures |cmd| == COMMAND_LENGTH
  {
    HEADER + Entries(chunk) + Padding(10 - |chunk|) + [TRAILER]
  }

  /** Every command starts with `7e 07 64` and ends with `ef`. */
  lemma CommandFraming(chunk: seq<Pixel>)
    requires |chunk| <= 10 && AllEncodable(chunk)
    ensures Command(chunk)[..3] == HEADER && Command(chunk)[COMMAND_LENGTH - 1] == TRAILER
  {
    SliceOfFour(HEADER, Entries(chunk), Padding(10 - |chunk|), [TRAILER]);
  }

  /** Between the header and the trailer: the real entries, then the padding. */
  lemma CommandBody(chunk: seq<Pixel>)
    requires |chunk| <= 10 && AllEncodable(chunk)
    ensures Command(chunk)[3 .. COMMAND_LENGTH - 1] == Entries(chunk) + Padding(10 - |chunk|)
  {
    Inner4(HEADER, Entries(chunk), Padding(10 - |chunk|), [TRAILER]);
  }

  /** Slot k of `b + c`, where `b` holds n slots of five: slot k of b, or slot k - n of c. */
  lemma SlotOfTwo<T>(b: seq<T>, c: seq<T>, n: nat, k: nat)
    requires |b| == 5 * n && 5 * k + 5 <= |b| + |c|
    ensures k < n ==> (b + c)[5 * k .. 5 * k + 5] == b[5 * k .. 5 * k + 5]
    ensures n <= k ==> (b + c)[5 * k .. 5 * k + 5] == c[5 * (k - n) .. 5 * (k - n) + 5]
  {
    SliceOfTwo(b, c, 5 * k, 5 * k + 5);
  }

  /** Slot k of a command holds pixel k when the group has one, and padding otherwise. */
  lemma CommandSlot(chunk: seq<Pixel>, k: nat)
    requires |chunk| <= 10 && AllEncodable(chunk) && k < 10
    ensures Command(chunk)[3 + 5 * k .. 8 + 5 * k] == if k < |chunk| then Entry(chunk[k]) else PAD_ENTRY
  {
    CommandBodySlot(chunk, k);
    if k < |chunk| {
      EntriesSlot(chunk, k);
    } else {
      PaddingSlot(10 - |chunk|, k - |chunk|);
    }
  }

  /** Slot k of a command is slot k of its entries, or slot k - n of its padding. */
  lemma CommandBodySlot(chunk: seq<Pixel>, k: nat)
    requires |chunk| <= 10 && AllEncodable(chunk) && k < 10
    ensures k < |chunk| ==> Command(chunk)[3 + 5 * k .. 8 + 5 * k] == Entries(chunk)[5 * k .. 5 * k + 5]
    ensures |chunk| <= k ==>
              Command(chunk)[3 + 5 * k .. 8 + 5 * k] == Padding(10 - |chunk|)[5 * (k - |chunk|) .. 5 * (k - |chunk|) + 5]
  {
    var e, p := Entries(chunk), Padding(10 - |chunk|);
    CommandBody(chunk);
    SliceOfSlice(Command(chunk), 3, COMMAND_LENGTH - 1, 5 * k, 5 * k + 5);
    SlotOfTwo(e, p, |chunk|, k);
  }

  /** One command per group of ten pixels, in order. */
  function Commands(ps: seq<Pixel>): (cmds: seq<seq<byte>>)
    requires AllEncodable(ps)
    ensures forall j :: 0 <= j < |cmds| ==> |cmds[j]| == COMMAND_LENGTH
  {
    var cs := Chunks(ps, 10);
    seq(|cs|, j requires 0 <= j < |cs| => Command(cs[j]))
  }

  /** The first group is the first min(10, n) pixels; the rest are the groups of what follows. */
  lemma CommandsUnfold(ps: seq<Pixel>)
    requires AllEncodable(ps) && ps != []
    ensures AllEncodable(ps[Min(10, |ps|)..])
    ensures Commands(ps) == [Command(ps[..Min(10, |ps|)])] + Commands(ps[Min(10, |ps|)..])
  {
    var k := Min(10, |ps|);
    assert forall p :: p in ps[k..] ==> p in ps;
    assert forall p :: p in ps[..k] ==> p in ps;
    var cs := Chunks(ps, 10);
    assert cs == [ps[..k]] + Chunks(ps[k..], 10);
  }

  /** The commands from pixel i on: the one for the group starting at i, then those after it. */
  lemma CommandsAt(ps: seq<Pixel>, i: nat)
    requires AllEncodable(ps) && i < |ps|
    ensures AllEncodable(ps[i..]) && AllEncodable(ps[Min(i + 10, |ps|)..]) && AllEncodable(ps[i..Min(i + 10, |ps|)])
    ensures Commands(ps[i..]) == [Command(ps[i..Min(i + 10, |ps|)])] + Commands(ps[Min(i + 10, |ps|)..])
  {
    var rest := ps[i..];
    assert forall p :: p in rest ==> p in ps;
    CommandsUnfold(rest);
    assert rest[..Min(10, |rest|)] == ps[i..Min(i + 10, |ps|)];
    assert rest[Min(10, |rest|)..] == ps[Min(i + 10, |ps|)..];
  }

  /** No pixels give no commands; n pixels give ceil(n / 10) commands. */
  lemma CommandsCount(ps: seq<Pixel>)
    requires AllEncodable(ps)
    ensures |Commands(ps)| == (|ps| + 9) / 10
    ensures ps == [] <==> Commands(ps) == []
  {
    ChunksCount(ps, 10);
  }

  /** Command j encodes pixels 10j .. 10j+9 exactly, in input order. */
  lemma CommandGroup(ps: seq<Pixel>, j: nat)
    requires AllEncodable(ps) && j < |Commands(ps)|
    ensures 10 * j < |ps|
    ensures AllEncodable(ps[10 * j .. Min(10 * j + 10, |ps|)])
    ensures Commands(ps)[j] == Command(ps[10 * j .. Min(10 * j + 10, |ps|)])
  {
    ChunkAt(ps, 10, j);
    assert j * 10 == 10 * j;
  }

  /** Pixel i is entry i % 10 of command i / 10. */
  lemma PixelEntry(ps: seq<Pixel>, i: nat)
    requires AllEncodable(ps) && i < |ps|
    ensures i / 10 < |Commands(ps)|
    ensures Commands(ps)[i / 10][3 + 5 * (i % 10) .. 8 + 5 * (i % 10)] == Entry(ps[i])
  {
    CommandsCount(ps);
    var j := i / 10;
    CommandGroup(ps, j);
    var g := ps[10 * j .. Min(10 * j + 10, |ps|)];
    assert g[i % 10] == ps[i];
    CommandSlot(g, i % 10);
  }

  /* ---- reading a command back ---- */

  /** The entries of a command body up to the first padding entry. */
  function DecodeEntries(body: seq<byte>): seq<Pixel>
    decreases |body|
  {
    if |body| < 5 || body[..5] == PAD_ENTRY then []
    else [Pixel(body[0], body[1], RGB(body[2], body[3], body[4]))] + DecodeEntries(body[5..])
  }

  function DecodeCommand(cmd: seq<byte>): seq<Pixel>
    requires |cmd| == COMMAND_LENGTH
  {
    DecodeEntries(cmd[3..COMMAND_LENGTH - 1])
  }

  function DecodeAll(cmds: seq<seq<byte>>): seq<Pixel>
    requires forall j :: 0 <= j < |cmds| ==> |cmds[j]| == COMMAND_LENGTH
  {
    if cmds == [] then [] else DecodeCommand(cmds[0]) + DecodeAll(cmds[1..])
  }

  /** Only the all-`ff` pixel has the padding entry. */
  lemma EntryIsPadding(p: Pixel)
    requires Encodable(p)
    ensures Entry(p) == PAD_ENTRY ==> IsPaddingPixel(p)
  {
    if Entry(p) == PAD_ENTRY {
      var e := Entry(p);
      assert e[0] == 0xff && e[1] == 0xff && e[2] == 0xff && e[3] == 0xff && e[4] == 0xff;
    }
  }

  /** A leading entry that is not padding is read as one pixel. */
  lemma DecodeEntriesCons(e: seq<byte>, rest: seq<byte>)
    requires |e| == 5 && e != PAD_ENTRY
    ensures DecodeEntries(e + rest) == [Pixel(e[0], e[1], RGB(e[2], e[3], e[4]))] + DecodeEntries(rest)
  {
    SplitAt(e, rest);
  }

  lemma {:induction false} DecodeEntriesRoundTrip(chunk: seq<Pixel>, m: nat)
    requires AllEncodable(chunk)
    requires forall p :: p in chunk ==> !IsPaddingPixel(p)
    ensures DecodeEntries(Entries(chunk) + Padding(m)) == chunk
  {
    if chunk == [] {
      assert Entries(chunk) + Padding(m) == Padding(m);
      if m > 0 {
        SplitAt(PAD_ENTRY, Padding(m - 1));
      }
    } else {
      var p := chunk[0];
      assert p in chunk;
      EntryIsPadding(p);
      var e, tail, pad := Entry(p), Entries(chunk[1..]), Padding(m);
      assert Entries(chunk) == e + tail;
      Assoc(e, tail, pad);
      DecodeEntriesCons(e, tail + pad);
      assert forall q :: q in chunk[1..] ==> q in chunk;
      DecodeEntriesRoundTrip(chunk[1..], m);
      assert chunk == [p] + chunk[1..];
    }
  }

  /** Reading a command back gives its group, provided no pixel looks like padding. */
  lemma DecodeCommandRoundTrip(chunk: seq<Pixel>)
    requires |chunk| <= 10 && AllEncodable(chunk)
    requires forall p :: p in chunk ==> !IsPaddingPixel(p)
    ensures DecodeCommand(Command(chunk)) == chunk
  {
    CommandBody(chunk);
    DecodeEntriesRoundTrip(chunk, 10 - |chunk|);
  }

  /** Decoding the commands of a pixel list gives the list back, in order. */
  lemma {:induction false} DecodeCommandsRoundTrip(ps: seq<Pixel>)
    requires AllEncodable(ps)
    requires forall p :: p in ps ==> !IsPaddingPixel(p)
    ensures DecodeAll(Commands(ps)) == ps
    decreases |ps|
  {
    if ps != [] {
      var k := Min(10, |ps|);
      var head, tail := ps[..k], ps[k..];
      CommandsUnfold(ps);
      assert forall p :: p in head ==> p in ps;
      assert forall p :: p in tail ==> p in ps;
      var cmds := Commands(ps);
      assert cmds[0] == Command(head) && cmds[1..] == Commands(tail);
      assert DecodeAll(cmds) == DecodeCommand(Command(head)) + DecodeAll(Commands(tail));
      DecodeCommandRoundTrip(head);
      DecodeCommandsRoundTrip(tail);
      assert ps == head + tail;
    }
  }

  /* ---- the hexadecimal text the source builds before `bytearray.fromhex` ---- */

  predicate IsHexDigit(ch: char)
  {
    '0' <= ch <= '9' || 'a' <= ch <= 'f' || 'A' <= ch <= 'F'
  }

  function HexValue(ch: char): (v: int)
    requires IsHexDigit(ch)
    ensures 0 <= v < 16
  {
    if '0' <= ch <= '9' then ch as int - '0' as int
    else if 'a' <= ch <= 'f' then ch as int - 'a' as int + 10
    else ch as int - 'A' as int + 10
  }

  /** The lowercase digit of `format(d, "x")` for 0 <= d < 16; reading it back gives d. */
  function HexDigit(d: int): (ch: char)
    requires 0 <= d < 16
    ensures IsHexDigit(ch) && HexValue(ch) == d
    ensures '0' <= ch <= '9' || 'a' <= ch <= 'f'
  {
    if d < 10 then ('0' as int + d) as char else ('a' as int + d - 10) as char
  }

  /** `f"{x:02x}"`: two lowercase hexadecimal digits. */
  function Hex2(x: byte): string
  {
    [HexDigit(x / 16), HexDigit(x % 16)]
  }

  /** `rgb_to_hex_str`: two lowercase hexadecimal digits per channel. */
  function RgbToHexStr(c: RGB): (s: string)
    ensures |s| == 6
  {
    Hex2(c.r) + Hex2(c.g) + Hex2(c.b)
  }

  /** Text `bytearray.fromhex` accepts without spaces: pairs of hexadecimal digits. */
  predicate IsHexText(s: string)
    decreases |s|
  {
    s == [] || (|s| >= 2 && IsHexDigit(s[0]) && IsHexDigit(s[1]) && IsHexText(s[2..]))
  }

  /** `bytearray.fromhex` on text without spaces: one byte per pair of digits. */
  function FromHex(s: string): (b: seq<byte>)
    requires IsHexText(s)
    ensures 2 * |b| == |s|
    decreases |s|
  {
    if s == [] then [] else [16 * HexValue(s[0]) + HexValue(s[1])] + FromHex(s[2..])
  }

  /** The two digits of each byte, in order. */
  function Hex2s(bs: seq<byte>): (hs: seq<string>)
    ensures |hs| == |bs|
  {
    seq(|bs|, i requires 0 <= i < |bs| => Hex2(bs[i]))
  }

  /** Two lowercase digits per byte: the text whose `bytearray.fromhex` is `bs`. */
  function ToHex(bs: seq<byte>): string
  {
    Flatten(Hex2s(bs))
  }

  /** Reading two digits of `f"{x:02x}"` gives x back. */
  lemma FromHexCons(x: byte, rest: string)
    requires IsHexText(rest)
    ensures IsHexText(Hex2(x) + rest)
    ensures FromHex(Hex2(x) + rest) == [x] + FromHex(rest)
  {
    var s := Hex2(x) + rest;
    assert s[0] == HexDigit(x / 16) && s[1] == HexDigit(x % 16);
    assert s[2..] == rest;
  }

  /** `bytearray.fromhex` inverts the two-digit encoding. */
  lemma {:induction false} ToHexDecodes(bs: seq<byte>)
    ensures IsHexText(ToHex(bs)) && FromHex(ToHex(bs)) == bs
  {
    if bs != [] {
      var hs := Hex2s(bs);
      assert hs[1..] == Hex2s(bs[1..]);
      assert ToHex(bs) == Hex2(bs[0]) + ToHex(bs[1..]);
      ToHexDecodes(bs[1..]);
      FromHexCons(bs[0], ToHex(bs[1..]));
      assert bs == [bs[0]] + bs[1..];
    }
  }

  lemma ToHexAppend(a: seq<byte>, b: seq<byte>)
    ensures ToHex(a + b) == ToHex(a) + ToHex(b)
  {
    assert Hex2s(a + b) == Hex2s(a) + Hex2s(b);
    FlattenAppend(Hex2s(a), Hex2s(b));
  }

  lemma ToHexSingle(x: byte)
    ensures ToHex([x]) == Hex2(x)
  {
    assert Hex2s([x]) == [Hex2(x)];
    assert Flatten([Hex2(x)]) == Hex2(x) + Flatten([]);
  }

  lemma ToHexTriple(x: byte, y: byte, z: byte)
    ensures ToHex([x, y, z]) == Hex2(x) + Hex2(y) + Hex2(z)
  {
    ToHexSingle(x);
    ToHexSingle(y);
    ToHexSingle(z);
    ToHexAppend([x], [y]);
    ToHexAppend([x, y], [z]);
    assert [x] + [y] == [x, y];
    assert [x, y] + [z] == [x, y, z];
  }

  /** The six digits of `rgb_to_hex_str` decode to exactly the bytes R, G, B. */
  lemma RgbToHexStrRoundTrip(c: RGB)
    ensures IsHexText(RgbToHexStr(c))
    ensures FromHex(RgbToHexStr(c)) == [c.r, c.g, c.b]
  {
    ToHexTriple(c.r, c.g, c.b);
    ToHexDecodes([c.r, c.g, c.b]);
  }

  /** `f"{row:02x}{col:02x}{rgb_to_hex_str(color)}"`. */
  function EntryHex(p: Pixel): string
    requires Encodable(p)
  {
    Hex2(p.row) + Hex2(p.col) + RgbToHexStr(p.color)
  }

  /** The hexadecimal text of one entry encodes the entry's five bytes. */
  lemma EntryHexIsToHex(p: Pixel)
    requires Encodable(p)
    ensures EntryHex(p) == ToHex(Entry(p))
  {
    var r, c: byte := p.row, p.col;
    var k := p.color;
    ToHexSingle(r);
    ToHexSingle(c);
    ToHexTriple(k.r, k.g, k.b);
    ToHexAppend([r], [c]);
    ToHexAppend([r, c], [k.r, k.g, k.b]);
    assert [r] + [c] == [r, c];
    assert [r, c] + [k.r, k.g, k.b] == Entry(p);
  }

  const HEADER_HEX := "7e0764"
  const PAD_HEX := "ffffffffff"
  const TRAILER_HEX := "ef"

  /** The hexadecimal text of each real entry of a group, in order. */
  function EntryHexes(chunk: seq<Pixel>): (hs: seq<string>)
    requires AllEncodable(chunk)
    ensures |hs| == |chunk|
  {
    seq(|chunk|, k requires 0 <= k < |chunk| => EntryHex(chunk[k]))
  }

  /** The hexadecimal text of a group's real entries. */
  function EntriesHex(chunk: seq<Pixel>): string
    requires AllEncodable(chunk)
  {
    Flatten(EntryHexes(chunk))
  }

  /** `"ffffffffff"` once per padding entry. */
  function PadHex(m: nat): string
  {
    if m == 0 then "" else PadHex(m - 1) + PAD_HEX
  }

  /** `"7e0764" + body + "ef"` as the source assembles it for one group. */
  function CommandHex(chunk: seq<Pixel>): string
    requires |chunk| <= 10 && AllEncodable(chunk)
  {
    HEADER_HEX + EntriesHex(chunk) + PadHex(10 - |chunk|) + TRAILER_HEX
  }

  lemma EntriesHexAppend(chunk: seq<Pixel>, p: Pixel)
    requires AllEncodable(chunk) && Encodable(p)
    ensures AllEncodable(chunk + [p])
    ensures EntriesHex(chunk + [p]) == EntriesHex(chunk) + EntryHex(p)
  {
    assert forall q :: q in chunk + [p] ==> q in chunk || q == p;
    assert EntryHexes(chunk + [p]) == EntryHexes(chunk) + [EntryHex(p)];
    FlattenSnoc(EntryHexes(chunk), EntryHex(p));
  }

  lemma {:induction false} EntriesHexIsToHex(chunk: seq<Pixel>)
    requires AllEncodable(chunk)
    ensures EntriesHex(chunk) == ToHex(Entries(chunk))
  {
    if chunk != [] {
      assert chunk[0] in chunk;
      assert forall q :: q in chunk[1..] ==> q in chunk;
      var hs := EntryHexes(chunk);
      assert hs[1..] == EntryHexes(chunk[1..]);
      assert EntriesHex(chunk) == EntryHex(chunk[0]) + EntriesHex(chunk[1..]);
      EntryHexIsToHex(chunk[0]);
      EntriesHexIsToHex(chunk[1..]);
      ToHexAppend(Entry(chunk[0]), Entries(chunk[1..]));
    }
  }

  lemma {:induction false} PaddingAppend(m: nat)
    ensures Padding(m + 1) == Padding(m) + PAD_ENTRY
  {
    if m > 0 {
      PaddingAppend(m - 1);
    }
  }

  lemma {:induction false} PadHexIsToHex(m: nat)
    ensures PadHex(m) == ToHex(Padding(m))
  {
    if m > 0 {
      PadHexIsToHex(m - 1);
      PaddingAppend(m - 1);
      PadEntryHex();
      ToHexAppend(Padding(m - 1), PAD_ENTRY);
    }
  }

  lemma PadEntryHex()
    ensures ToHex(PAD_ENTRY) == PAD_HEX
  {
    var ff: byte := 0xff;
    assert Hex2(ff) == "ff";
    ToHexTriple(ff, ff, ff);
    ToHexSingle(ff);
    ToHexAppend([ff, ff, ff], [ff]);
    ToHexAppend([ff, ff, ff, ff], [ff]);
    assert [ff, ff, ff] + [ff] == [ff, ff, ff, ff];
    assert [ff, ff, ff, ff] + [ff] == PAD_ENTRY;
  }

  lemma FramingIsToHex()
    ensures ToHex(HEADER) == HEADER_HEX
    ensures ToHex([TRAILER]) == TRAILER_HEX
  {
    var h0, h1, h2: byte := 0x7e, 0x07, 0x64;
    assert Hex2(h0) == "7e" && Hex2(h1) == "07" && Hex2(h2) == "64";
    ToHexTriple(h0, h1, h2);
    assert Hex2(TRAILER) == "ef";
    ToHexSingle(TRAILER);
  }

  /** The text the source builds for a group is the two-digit encoding of its command. */
  lemma CommandHexIsToHex(chunk: seq<Pixel>)
    requires |chunk| <= 10 && AllEncodable(chunk)
    ensures CommandHex(chunk) == ToHex(Command(chunk))
  {
    var m := 10 - |chunk|;
    var e, pad := Entries(chunk), Padding(m);
    var eh, ph := EntriesHex(chunk), PadHex(m);
    assert Command(chunk) == HEADER + e + pad + [TRAILER];
    assert CommandHex(chunk) == HEADER_HEX + eh + ph + TRAILER_HEX;
    FramingIsToHex();
    EntriesHexIsToHex(chunk);
    PadHexIsToHex(m);
    ToHexAppend4(HEADER, e, pad, [TRAILER]);
  }

  lemma ToHexAppend4(a: seq<byte>, b: seq<byte>, c: seq<byte>, d: seq<byte>)
    ensures ToHex(a + b + c + d) == ToHex(a) + ToHex(b) + ToHex(c) + ToHex(d)
  {
    ToHexAppend(a, b);
    ToHexAppend(a + b, c);
    ToHexAppend(a + b + c, d);
  }

  /** Decoding the text the source builds for a group gives exactly the bytes of its command. */
  lemma CommandHexDecodes(chunk: seq<Pixel>)
    requires |chunk| <= 10 && AllEncodable(chunk)
    ensures IsHexText(CommandHex(chunk)) && FromHex(CommandHex(chunk)) == Command(chunk)
  {
    CommandHexIsToHex(chunk);
    ToHexDecodes(Command(chunk));
  }

  /**
   * The body of both copies of `build_command_from_pixels` for one group: the hexadecimal text of
   * its entries, `"ffffffffff"` per unused slot, framed by `"7e0764"` and `"ef"`, then decoded.
   */
  method BuildGroupCommand(chunk: seq<Pixel>) returns (cmd: seq<byte>)
    requires |chunk| <= 10 && AllEncodable(chunk)
    ensures cmd == Command(chunk)
  {
    var body := "";
    var k := 0;
    while k < |chunk|
      invariant 0 <= k <= |chunk|
      invariant AllEncodable(chunk[..k])
      invariant body == EntriesHex(chunk[..k])
    {
      assert chunk[..k + 1] == chunk[..k] + [chunk[k]];
      EntriesHexAppend(chunk[..k], chunk[k]);
      body := body + EntryHex(chunk[k]);
      k := k + 1;
    }
    assert chunk[..k] == chunk;
    var pad := 0;
    while pad < 10 - |chunk|
      invariant 0 <= pad <= 10 - |chunk|
      invariant body == EntriesHex(chunk) + PadHex(pad)
    {
      Assoc(EntriesHex(chunk), PadHex(pad), PAD_HEX);
      body := body + PAD_HEX;
      pad := pad + 1;
    }
    var text := HEADER_HEX + body + TRAILER_HEX;
    Assoc(HEADER_HEX, EntriesHex(chunk), PadHex(10 - |chunk|));
    assert text == CommandHex(chunk);
    CommandHexDecodes(chunk);
    cmd := FromHex(text);
  }
}
