/** The boot image: 16-bit colours as runs, written by the generator and painted by the boot code. */
module BootImage {
  import opened Bytes

  type u16 = x: int | 0 <= x < 0x1_0000

  const IMAGE_WIDTH: nat := 640
  const IMAGE_HEIGHT: nat := 480

  // ---- Colours ----

  /** rgb565: the top five, six and five bits of the channels. */
  function Rgb565(red: byte, green: byte, blue: byte): (c: u16)
    ensures c / 0x800 == red / 8 && c / 32 % 64 == green / 4 && c % 32 == blue / 8
  {
    Fields(red / 8, green / 4, blue / 8);
    red / 8 * 0x800 + green / 4 * 0x20 + blue / 8
  }

  /** Five or six bits spread over eight, the top bits repeated below: (v << 3) | (v >> 2) and (v << 2) | (v >> 4). */
  function Spread5(v: nat): byte
    requires v < 32
  {
    v * 8 + v / 4
  }

  function Spread6(v: nat): byte
    requires v < 64
  {
    v * 4 + v / 16
  }

  /** The bytes put_pixel stores: B, G, R and padding at 32 bits, low byte first at 16. */
  function PixelBytes(colour: u16, depth32: bool): (b: seq<byte>)
    ensures |b| == if depth32 then 4 else 2
  {
    if depth32 then [Spread5(colour % 32), Spread6(colour / 32 % 64), Spread5(colour / 0x800), 0]
    else [colour % 0x100, colour / 0x100]
  }

  lemma Fields(r: nat, g: nat, b: nat)
    requires r < 32 && g < 64 && b < 32
    ensures var c := r * 0x800 + g * 0x20 + b; c / 0x800 == r && c / 32 % 64 == g && c % 32 == b
  {
    var c := r * 0x800 + g * 0x20 + b;
    assert c / 32 == r * 64 + g;
  }

  lemma SpreadClose(x: byte)
    ensures -8 < (Spread5(x / 8) as int) - x < 8 && -4 < (Spread6(x / 4) as int) - x < 4
  {
  }

  /** A colour that goes through the generator and a 32-bit screen loses less than a step of its 565 precision. */
  lemma ColourSurvives(red: byte, green: byte, blue: byte)
    ensures var b := PixelBytes(Rgb565(red, green, blue), true);
            && -8 < (b[2] as int) - red < 8 && -4 < (b[1] as int) - green < 4 && -8 < (b[0] as int) - blue < 8
  {
    hide Spread5, Spread6;
    SpreadClose(red);
    SpreadClose(green);
    SpreadClose(blue);
  }

  // ---- Runs ----

  datatype Run = Run(count: nat, colour: u16)

  function Repeat(colour: u16, n: nat): (r: seq<u16>)
    ensures |r| == n && forall i :: 0 <= i < n ==> r[i] == colour
  {
    seq(n, i => colour)
  }

  function Expand(runs: seq<Run>): seq<u16> {
    if runs == [] then [] else Expand(runs[..|runs| - 1]) + Repeat(runs[|runs| - 1].colour, runs[|runs| - 1].count)
  }

  lemma ExpandSnoc(runs: seq<Run>, r: Run)
    ensures Expand(runs + [r]) == Expand(runs) + Repeat(r.colour, r.count)
  {
    assert (runs + [r])[..|runs|] == runs;
  }

  lemma ExpandNothing()
    ensures Expand([]) == []
  {
  }

  /** Counts fit 16 bits, and a run ends only where the colour changes or the count is full. */
  predicate RunsSound(runs: seq<Run>) {
    && (forall i :: 0 <= i < |runs| ==> 1 <= runs[i].count <= 0xFFFF)
    && (forall i :: 0 <= i < |runs| - 1 ==> runs[i].colour != runs[i + 1].colour || runs[i].count == 0xFFFF)
  }

  /** The pixels seen: whole runs, then the open one. */
  predicate Seen(pixels: seq<u16>, i: nat, runs: seq<Run>, colour: u16, count: nat) {
    i <= |pixels| && pixels[..i] == Expand(runs) + Repeat(colour, count)
  }

  /** The last closed run may be followed by one of this colour. */
  predicate MayFollow(runs: seq<Run>, colour: u16) {
    runs != [] ==> runs[|runs| - 1].colour != colour || runs[|runs| - 1].count == 0xFFFF
  }

  lemma CloseRun(pixels: seq<u16>, i: nat, runs: seq<Run>, colour: u16, count: nat, next: u16)
    requires Seen(pixels, i, runs, colour, count) && RunsSound(runs) && MayFollow(runs, colour)
    requires 1 <= count <= 0xFFFF && (next != colour || count == 0xFFFF)
    ensures Seen(pixels, i, runs + [Run(count, colour)], next, 0)
    ensures RunsSound(runs + [Run(count, colour)]) && MayFollow(runs + [Run(count, colour)], next)
  {
    hide Expand;
    ExpandSnoc(runs, Run(count, colour));
    assert Expand(runs) + Repeat(colour, count) + Repeat(next, 0) == Expand(runs) + Repeat(colour, count);
  }

  lemma LengthenRun(pixels: seq<u16>, i: nat, runs: seq<Run>, colour: u16, count: nat)
    requires Seen(pixels, i, runs, colour, count) && i < |pixels| && pixels[i] == colour
    ensures Seen(pixels, i + 1, runs, colour, count + 1)
  {
    hide Expand;
  }

  lemma NothingSeen(pixels: seq<u16>)
    requires pixels != []
    ensures Seen(pixels, 0, [], pixels[0], 0)
  {
  }

  /** The run-length loop of the generator. */
  method EncodeRuns(pixels: seq<u16>) returns (runs: seq<Run>)
    requires pixels != []
    ensures Expand(runs) == pixels && RunsSound(runs)
  {
    hide Seen, RunsSound, MayFollow, Expand;
    runs := [];
    var colour, count := pixels[0], 0;
    NothingSeen(pixels);
    NoRuns(colour);
    for i := 0 to |pixels|
      invariant 0 <= count <= 0xFFFF && (i == 0 ==> colour == pixels[0]) && (i > 0 ==> count > 0)
      invariant Seen(pixels, i, runs, colour, count) && RunsSound(runs) && MayFollow(runs, colour)
    {
      if pixels[i] != colour || count == 0xFFFF {
        CloseRun(pixels, i, runs, colour, count, pixels[i]);
        runs := runs + [Run(count, colour)];
        colour := pixels[i];
        count := 0;
      }
      LengthenRun(pixels, i, runs, colour, count);
      count := count + 1;
    }
    LastRun(pixels, runs, colour, count);
    runs := runs + [Run(count, colour)];
  }

  lemma NoRuns(colour: u16)
    ensures RunsSound([]) && MayFollow([], colour)
  {
  }

  lemma LastRun(pixels: seq<u16>, runs: seq<Run>, colour: u16, count: nat)
    requires Seen(pixels, |pixels|, runs, colour, count) && RunsSound(runs) && MayFollow(runs, colour)
    requires 1 <= count <= 0xFFFF
    ensures Expand(runs + [Run(count, colour)]) == pixels && RunsSound(runs + [Run(count, colour)])
  {
    hide Expand;
    ExpandSnoc(runs, Run(count, colour));
    assert pixels[..|pixels|] == pixels;
  }

  /** The pixels of a run, among all of them. */
  lemma {:induction false} RunPixels(runs: seq<Run>, k: nat, i: nat)
    requires k < |runs| && i < runs[k].count
    ensures |Expand(runs[..k])| + i < |Expand(runs)|
    ensures Expand(runs)[|Expand(runs[..k])| + i] == runs[k].colour
    ensures |Expand(runs[..k + 1])| == |Expand(runs[..k])| + runs[k].count
  {
    var n := |runs| - 1;
    ExpandSnoc(runs[..k], runs[k]);
    assert runs[..k + 1] == runs[..k] + [runs[k]];
    if k == n {
      assert runs[..n + 1] == runs;
    } else {
      RunPixels(runs[..n], k, i);
      assert runs[..n][..k] == runs[..k];
    }
  }
}
