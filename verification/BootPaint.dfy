/** draw_boot_image: runs cut at row ends and painted as rectangles of scale-by-scale blocks. */
module BootPaint {
  import opened Bytes
  import opened BootImage

  /** The framebuffer the firmware set up: pitch is the bytes of a row, padding included. */
  datatype Mode = Mode(width: nat, height: nat, pitch: nat, depth32: bool)

  function Bpp(m: Mode): nat {
    if m.depth32 then 4 else 2
  }

  predicate ValidMode(m: Mode, size: nat) {
    m.width * Bpp(m) <= m.pitch && m.height * m.pitch <= size
  }

  function Offset(m: Mode, x: nat, y: nat): nat {
    y * m.pitch + x * Bpp(m)
  }

  predicate OnScreen(m: Mode, x: nat, y: nat) {
    x < m.width && y < m.height
  }

  /** Pixels lie inside the buffer and do not overlap. */
  lemma PixelInside(m: Mode, size: nat, x: nat, y: nat)
    requires ValidMode(m, size) && OnScreen(m, x, y)
    ensures Offset(m, x, y) + Bpp(m) <= (y + 1) * m.pitch <= size
  {
    assert (x + 1) * Bpp(m) <= m.width * Bpp(m);
    assert (y + 1) * m.pitch <= m.height * m.pitch;
    assert (y + 1) * m.pitch == y * m.pitch + m.pitch;
  }

  lemma RowsOrdered(y: nat, y': nat, pitch: nat)
    requires y < y'
    ensures (y + 1) * pitch <= y' * pitch
  {
    assert y' * pitch - (y + 1) * pitch == (y' - y - 1) * pitch;
  }

  /** A pixel of an earlier row, or of an earlier column of the same row, ends before this one. */
  lemma PixelBefore(m: Mode, size: nat, x: nat, y: nat, x': nat, y': nat)
    requires ValidMode(m, size) && OnScreen(m, x, y) && OnScreen(m, x', y') && (y < y' || (y == y' && x < x'))
    ensures Offset(m, x, y) + Bpp(m) <= Offset(m, x', y')
  {
    PixelInside(m, size, x, y);
    if y < y' {
      hide ValidMode, Bpp;
      RowsOrdered(y, y', m.pitch);
    }
  }

  lemma PixelsApart(m: Mode, size: nat, x: nat, y: nat, x': nat, y': nat)
    requires ValidMode(m, size) && OnScreen(m, x, y) && OnScreen(m, x', y') && (x != x' || y != y')
    ensures Offset(m, x, y) + Bpp(m) <= Offset(m, x', y') || Offset(m, x', y') + Bpp(m) <= Offset(m, x, y)
  {
    hide ValidMode, Offset, Bpp;
    if y < y' || (y == y' && x < x') {
      PixelBefore(m, size, x, y, x', y');
    } else {
      PixelBefore(m, size, x', y', x, y);
    }
  }

  function Pixel(fb: seq<byte>, m: Mode, x: nat, y: nat): seq<byte>
    requires ValidMode(m, |fb|) && OnScreen(m, x, y)
  {
    PixelInside(m, |fb|, x, y);
    fb[Offset(m, x, y)..Offset(m, x, y) + Bpp(m)]
  }

  /** Only the pixels of the picture differ: want says what pixel (x, y) shows, None for what it showed before. */
  predicate Shows(fb: seq<byte>, m: Mode, was: seq<byte>, x: nat, y: nat, want: Option<u16>)
    requires ValidMode(m, |fb|) && |was| == |fb| && OnScreen(m, x, y)
  {
    Pixel(fb, m, x, y) == match want case None => Pixel(was, m, x, y) case Some(c) => PixelBytes(c, m.depth32)
  }

  // ---- Rectangles ----

  predicate InRect(x: nat, y: nat, left: nat, top: nat, w: nat, h: nat) {
    left <= x < left + w && top <= y < top + h
  }

  /** The pixels fill_rect has painted before row py, and in it before column px. */
  predicate Filled(x: nat, y: nat, left: nat, top: nat, w: nat, py: nat, px: nat) {
    InRect(x, y, left, top, w, py) || InRect(x, y, left, top + py, px, 1)
  }

  function If(c: bool, colour: u16): Option<u16> {
    if c then Some(colour) else None
  }

  class Screen {
    const fb: array<byte>
    const m: Mode

    ghost predicate Valid() {
      ValidMode(m, fb.Length)
    }

    constructor (fb: array<byte>, m: Mode)
      requires ValidMode(m, fb.Length)
      ensures Valid() && this.fb == fb && this.m == m
    {
      this.fb, this.m := fb, m;
    }

    method PutPixel(x: nat, y: nat, colour: u16)
      requires Valid() && OnScreen(m, x, y)
      modifies fb
      ensures Pixel(fb[..], m, x, y) == PixelBytes(colour, m.depth32)
      ensures forall x': nat, y': nat :: OnScreen(m, x', y') && (x' != x || y' != y) ==>
                Pixel(fb[..], m, x', y') == Pixel(old(fb[..]), m, x', y')
    {
      hide ValidMode, Offset, PixelBytes;
      PixelInside(m, fb.Length, x, y);
      var at, b := Offset(m, x, y), PixelBytes(colour, m.depth32);
      ghost var was := fb[..];
      fb[at], fb[at + 1] := b[0], b[1];
      if m.depth32 {
        fb[at + 2], fb[at + 3] := b[2], b[3];
      }
      assert fb[..][at..at + Bpp(m)] == b;
      forall x': nat, y': nat | OnScreen(m, x', y') && (x' != x || y' != y)
        ensures Pixel(fb[..], m, x', y') == Pixel(was, m, x', y')
      {
        PixelsApart(m, fb.Length, x, y, x', y');
        PixelInside(m, fb.Length, x', y');
        SameSlice(fb[..], was, at, Bpp(m), Offset(m, x', y'));
      }
    }

    /** fill_rect of a rectangle on the screen. */
    method FillRect(left: nat, top: nat, w: nat, h: nat, colour: u16)
      requires Valid() && left + w <= m.width && top + h <= m.height
      modifies fb
      ensures forall x: nat, y: nat :: OnScreen(m, x, y) ==>
                Shows(fb[..], m, old(fb[..]), x, y, If(InRect(x, y, left, top, w, h), colour))
    {
      hide ValidMode, Pixel, PixelBytes;
      ghost var was := fb[..];
      var py := 0;
      while py < h
        invariant 0 <= py <= h
        invariant forall x: nat, y: nat :: OnScreen(m, x, y) ==>
                    Shows(fb[..], m, was, x, y, If(InRect(x, y, left, top, w, py), colour))
      {
        FillRow(left, top, w, py, colour, was);
        py := py + 1;
      }
    }

    method FillRow(left: nat, top: nat, w: nat, py: nat, colour: u16, ghost was: seq<byte>)
      requires Valid() && left + w <= m.width && top + py < m.height && |was| == fb.Length
      requires forall x: nat, y: nat :: OnScreen(m, x, y) ==>
                 Shows(fb[..], m, was, x, y, If(InRect(x, y, left, top, w, py), colour))
      modifies fb
      ensures forall x: nat, y: nat :: OnScreen(m, x, y) ==>
                Shows(fb[..], m, was, x, y, If(InRect(x, y, left, top, w, py + 1), colour))
    {
      hide ValidMode, Pixel, PixelBytes;
      var px := 0;
      while px < w
        invariant 0 <= px <= w
        invariant forall x: nat, y: nat :: OnScreen(m, x, y) ==>
                    Shows(fb[..], m, was, x, y, If(Filled(x, y, left, top, w, py, px), colour))
      {
        PutPixel(left + px, top + py, colour);
        px := px + 1;
      }
    }
  }

  // ---- The picture ----

  /** Where the picture stands: centred, each of its pixels scale by scale. */
  datatype Place = Place(scale: nat, left: nat, top: nat)

  predicate Fits(m: Mode, scale: nat) {
    IMAGE_WIDTH * scale <= m.width && IMAGE_HEIGHT * scale <= m.height
  }

  function Centred(m: Mode, scale: nat): Place
    requires Fits(m, scale)
  {
    Place(scale, (m.width - IMAGE_WIDTH * scale) / 2, (m.height - IMAGE_HEIGHT * scale) / 2)
  }

  /** The image pixel a screen pixel belongs to. */
  function Source(p: Place, x: nat, y: nat): Option<nat>
    requires p.scale > 0
  {
    if x < p.left || y < p.top then None
    else
      var sx, sy := (x - p.left) / p.scale, (y - p.top) / p.scale;
      if sx < IMAGE_WIDTH && sy < IMAGE_HEIGHT then Some(sy * IMAGE_WIDTH + sx) else None
  }

  /** The colour of a screen pixel once the first pos image pixels are painted. */
  function Painted(p: Place, pixels: seq<u16>, pos: nat, x: nat, y: nat): Option<u16>
    requires p.scale > 0 && pos <= |pixels|
  {
    match Source(p, x, y)
    case None => None
    case Some(k) => if k < pos then Some(pixels[k]) else None
  }

  lemma Mono(a: nat, b: nat, n: nat)
    requires a <= b
    ensures a * n <= b * n
  {
    assert b * n - a * n == (b - a) * n;
  }

  lemma OneMoreTimes(a: nat, n: nat)
    ensures (a + 1) * n == a * n + n
  {
  }

  lemma ScaleUp(a: nat, n: nat, scale: nat)
    requires scale > 0
    ensures a / scale >= n <==> a >= n * scale
  {
    var q, r := a / scale, a % scale;
    assert a == q * scale + r;
    OneMoreTimes(q, scale);
    if q >= n {
      Mono(n, q, scale);
    } else {
      Mono(q + 1, n, scale);
    }
  }

  /** The screen positions of span units of scale, from unit n on. */
  lemma Between(a: nat, n: nat, span: nat, scale: nat)
    requires scale > 0
    ensures n * scale <= a < n * scale + span * scale <==> n <= a / scale < n + span
  {
    ScaleUp(a, n, scale);
    ScaleUp(a, n + span, scale);
    assert (n + span) * scale == n * scale + span * scale;
  }

  /** The rectangle drawn for image pixels pos..pos + span, which lie in one row. */
  predicate InPiece(p: Place, pos: nat, span: nat, x: nat, y: nat) {
    InRect(x, y, p.left + pos % IMAGE_WIDTH * p.scale, p.top + pos / IMAGE_WIDTH * p.scale, span * p.scale, p.scale)
  }

  /** The image column and row of a screen pixel right of and below the corner. */
  function Cell(p: Place, x: nat, y: nat): (nat, nat)
    requires p.scale > 0 && x >= p.left && y >= p.top
  {
    ((x - p.left) / p.scale, (y - p.top) / p.scale)
  }

  lemma CellsOfRect(p: Place, sx: nat, sy: nat, span: nat, x: nat, y: nat)
    requires p.scale > 0
    ensures InRect(x, y, p.left + sx * p.scale, p.top + sy * p.scale, span * p.scale, p.scale)
       <==> x >= p.left && y >= p.top && sx <= Cell(p, x, y).0 < sx + span && Cell(p, x, y).1 == sy
  {
    var left, top, width := sx * p.scale, sy * p.scale, span * p.scale;
    assert left >= 0 && top >= 0;
    if x >= p.left && y >= p.top {
      Between(x - p.left, sx, span, p.scale);
      Between(y - p.top, sy, 1, p.scale);
    }
  }

  lemma SourceOfCell(p: Place, x: nat, y: nat)
    requires p.scale > 0
    ensures Source(p, x, y)
         == if x >= p.left && y >= p.top && Cell(p, x, y).0 < IMAGE_WIDTH && Cell(p, x, y).1 < IMAGE_HEIGHT
            then Some(Cell(p, x, y).1 * IMAGE_WIDTH + Cell(p, x, y).0) else None
  {
  }

  /** One row piece: exactly those image pixels. */
  lemma PieceIsRect(p: Place, pos: nat, span: nat, x: nat, y: nat)
    requires p.scale > 0 && pos % IMAGE_WIDTH + span <= IMAGE_WIDTH && pos + span <= IMAGE_WIDTH * IMAGE_HEIGHT
    requires span > 0
    ensures InPiece(p, pos, span, x, y)
       <==> Source(p, x, y).Some? && pos <= Source(p, x, y).value < pos + span
  {
    hide InRect, Cell, Source;
    CellsOfRect(p, pos % IMAGE_WIDTH, pos / IMAGE_WIDTH, span, x, y);
    SourceOfCell(p, x, y);
    if x >= p.left && y >= p.top {
      RowMajor(Cell(p, x, y).0, Cell(p, x, y).1, pos % IMAGE_WIDTH, pos / IMAGE_WIDTH, span);
    }
  }

  /** Row-major order: an index lies in a piece of a row exactly when its row and column do. */
  lemma RowMajor(a: nat, b: nat, sx: nat, sy: nat, span: nat)
    requires sx + span <= IMAGE_WIDTH && sy < IMAGE_HEIGHT && span > 0
    ensures b == sy && sx <= a < sx + span <==>
            a < IMAGE_WIDTH && b < IMAGE_HEIGHT &&
                sy * IMAGE_WIDTH + sx <= b * IMAGE_WIDTH + a < sy * IMAGE_WIDTH + sx + span
  {
  }

  lemma PieceFits(m: Mode, scale: nat, pos: nat, span: nat)
    requires Fits(m, scale) && pos % IMAGE_WIDTH + span <= IMAGE_WIDTH && pos < IMAGE_WIDTH * IMAGE_HEIGHT
    ensures var p := Centred(m, scale);
            && p.left + pos % IMAGE_WIDTH * scale + span * scale <= m.width
            && p.top + pos / IMAGE_WIDTH * scale + scale <= m.height
  {
    var sx, sy := pos % IMAGE_WIDTH, pos / IMAGE_WIDTH;
    assert sy < IMAGE_HEIGHT;
    Mono(sx + span, IMAGE_WIDTH, scale);
    Mono(sy + 1, IMAGE_HEIGHT, scale);
    OneMoreTimes(sy, scale);
    assert (sx + span) * scale == sx * scale + span * scale;
    PlaceFits(m, scale, sx * scale + span * scale, sy * scale + scale);
  }

  lemma PlaceFits(m: Mode, scale: nat, w: nat, h: nat)
    requires Fits(m, scale) && w <= IMAGE_WIDTH * scale && h <= IMAGE_HEIGHT * scale
    ensures Centred(m, scale).left + w <= m.width && Centred(m, scale).top + h <= m.height
  {
  }

  lemma SameSlice(s: seq<byte>, t: seq<byte>, at: nat, n: nat, i: nat)
    requires |s| == |t| && at + n <= |s| && i + n <= |s| && (at + n <= i || i + n <= at)
    requires forall k :: 0 <= k < |s| && !(at <= k < at + n) ==> s[k] == t[k]
    ensures s[i..i + n] == t[i..i + n]
  {
  }

  // ---- Drawing it ----

  /** The colours of pixels pos..pos + count are those of one run. */
  predicate SameColour(pixels: seq<u16>, pos: nat, count: nat, colour: u16) {
    pos + count <= |pixels| && forall k :: pos <= k < pos + count ==> pixels[k] == colour
  }

  /** Every pixel of the screen shows the picture as far as it is painted, and is untouched elsewhere. */
  ghost predicate PaintedTo(fb: seq<byte>, was: seq<byte>, m: Mode, p: Place, pixels: seq<u16>, pos: nat)
    requires ValidMode(m, |fb|) && |was| == |fb| && p.scale > 0 && pos <= |pixels|
  {
    forall x: nat, y: nat :: OnScreen(m, x, y) ==> Shows(fb, m, was, x, y, Painted(p, pixels, pos, x, y))
  }

  lemma PiecePainted(before: seq<byte>, after: seq<byte>, was: seq<byte>, m: Mode, p: Place, pixels: seq<u16>,
                     pos: nat, span: nat, colour: u16)
    requires ValidMode(m, |was|) && |before| == |after| == |was| && p.scale > 0
    requires |pixels| == IMAGE_WIDTH * IMAGE_HEIGHT
    requires span > 0 && pos % IMAGE_WIDTH + span <= IMAGE_WIDTH && SameColour(pixels, pos, span, colour)
    requires PaintedTo(before, was, m, p, pixels, pos)
    requires forall x: nat, y: nat :: OnScreen(m, x, y) ==>
      Shows(after, m, before, x, y,
            If(InPiece(p, pos, span, x, y), colour))
    ensures PaintedTo(after, was, m, p, pixels, pos + span)
  {
    hide ValidMode, Pixel, PixelBytes, Source, InPiece;
    forall x: nat, y: nat | OnScreen(m, x, y)
      ensures Shows(after, m, was, x, y, Painted(p, pixels, pos + span, x, y))
    {
      PieceIsRect(p, pos, span, x, y);
      assert Shows(before, m, was, x, y, Painted(p, pixels, pos, x, y));
    }
  }

  /** The inner loop: one run, cut at the ends of the image rows. */
  method PaintRun(s: Screen, p: Place, pos: nat, count: nat, colour: u16, ghost pixels: seq<u16>, ghost was: seq<byte>)
    requires s.Valid() && p.scale > 0 && Fits(s.m, p.scale) && p == Centred(s.m, p.scale)
    requires |pixels| == IMAGE_WIDTH * IMAGE_HEIGHT && |was| == s.fb.Length && SameColour(pixels, pos, count, colour)
    requires PaintedTo(s.fb[..], was, s.m, p, pixels, pos)
    modifies s.fb
    ensures PaintedTo(s.fb[..], was, s.m, p, pixels, pos + count)
  {
    hide ValidMode, PaintedTo, InRect, Fits, Centred, Shows;
    var at, left := pos, count;
    while left > 0
      invariant at + left == pos + count && 0 <= left && PaintedTo(s.fb[..], was, s.m, p, pixels, at)
      decreases left
    {
      var sx, sy := at % IMAGE_WIDTH, at / IMAGE_WIDTH;
      var span := IMAGE_WIDTH - sx;
      if span > left {
        span := left;
      }
      PieceFits(s.m, p.scale, at, span);
      ghost var before := s.fb[..];
      s.FillRect(p.left + sx * p.scale, p.top + sy * p.scale, span * p.scale, p.scale, colour);
      PiecePainted(before, s.fb[..], was, s.m, p, pixels, at, span, colour);
      at, left := at + span, left - span;
    }
  }

  lemma RunColours(runs: seq<Run>, k: nat)
    requires k < |runs|
    ensures SameColour(Expand(runs), |Expand(runs[..k])|, runs[k].count, runs[k].colour)
    ensures |Expand(runs[..k + 1])| == |Expand(runs[..k])| + runs[k].count
  {
    hide Expand;
    RunLength(runs, k);
    forall j | |Expand(runs[..k])| <= j < |Expand(runs[..k])| + runs[k].count
      ensures j < |Expand(runs)| && Expand(runs)[j] == runs[k].colour
    {
      RunPixels(runs, k, j - |Expand(runs[..k])|);
    }
  }

  lemma {:induction false} RunLength(runs: seq<Run>, k: nat)
    requires k < |runs|
    ensures |Expand(runs[..k + 1])| == |Expand(runs[..k])| + runs[k].count <= |Expand(runs)|
  {
    var n := |runs| - 1;
    ExpandSnoc(runs[..k], runs[k]);
    assert runs[..k + 1] == runs[..k] + [runs[k]];
    if k == n {
      assert runs[..n + 1] == runs;
    } else {
      RunLength(runs[..n], k);
      assert runs[..n][..k] == runs[..k] && runs[..n][..k + 1] == runs[..k + 1];
    }
  }

  /**
   * draw_boot_image: false leaves a screen that is too small alone; otherwise
   * every screen pixel shows the image pixel of its scale-by-scale block, and
   * pixels outside the centred picture are untouched.
   */
  method DrawBootImage(s: Screen, scale: nat, runs: seq<Run>) returns (ok: bool)
    requires s.Valid() && scale > 0 && |Expand(runs)| == IMAGE_WIDTH * IMAGE_HEIGHT
    modifies s.fb
    ensures ok == Fits(s.m, scale)
    ensures !ok ==> s.fb[..] == old(s.fb[..])
    ensures ok ==>
              PaintedTo(s.fb[..], old(s.fb[..]), s.m, Centred(s.m, scale), Expand(runs), IMAGE_WIDTH * IMAGE_HEIGHT)
  {
    hide Expand, ValidMode;
    if s.m.width < IMAGE_WIDTH * scale || s.m.height < IMAGE_HEIGHT * scale {
      return false;
    }
    ghost var was, all := s.fb[..], Expand(runs);
    var p := Centred(s.m, scale);
    var pos, run := 0, 0;
    NothingPainted(was, s.m, p, all);
    ExpandNothing();
    hide PaintedTo, Centred, Fits;
    while run < |runs|
      invariant 0 <= run <= |runs| && pos == |Expand(runs[..run])| <= |all|
      invariant PaintedTo(s.fb[..], was, s.m, p, all, pos)
    {
      RunColours(runs, run);
      PaintRun(s, p, pos, runs[run].count, runs[run].colour, all, was);
      pos, run := pos + runs[run].count, run + 1;
    }
    assert runs[..|runs|] == runs;
    ok := true;
  }

  lemma NothingPainted(fb: seq<byte>, m: Mode, p: Place, pixels: seq<u16>)
    requires ValidMode(m, |fb|) && p.scale > 0
    ensures PaintedTo(fb, fb, m, p, pixels, 0)
  {
  }
}
