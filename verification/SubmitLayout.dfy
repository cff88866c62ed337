/**
 * do_submit_cl: where the pieces of a submission lie, and that the passes which
 * write them and the V3D which reads them agree.
 */
module SubmitLayout {
  import opened Bytes
  import opened Packets
  import opened BinList
  import opened BinMeaning
  import opened BinSizing
  import opened ShaderRecs
  import opened RecordSizing
  import opened RenderList
  import opened RenderExec

  // ---- The exec buffer ----

  /** Byte sizes of a submission: binner list, shader records, uniforms, and the prescan's index scratch. */
  datatype Sizes = Sizes(bin: u32, rec: u32, uniforms: u32, index: u32)

  /** The ROUNDUP macro on a ULONG. */
  function Up(x: u32, n: u32): u32
    requires n in {16, 4096}
  {
    Wrap(x + n - 1) / n * n
  }

  function RecAt(s: Sizes): u32 {
    Up(Wrap(s.bin + 256), 16)
  }

  function UniformsAt(s: Sizes): u32 {
    Up(Wrap(RecAt(s) + s.rec), 16)
  }

  function IndexAtOffset(s: Sizes): u32 {
    Up(Wrap(UniformsAt(s) + s.uniforms), 16)
  }

  function ExecSize(s: Sizes): u32 {
    Up(Wrap(Up(Wrap(s.bin + 256), 16) + Up(s.rec, 16) + Up(s.uniforms, 16) + s.index + 32), 4096)
  }

  /** The four sections follow each other, aligned, inside the buffer. */
  predicate LayoutSound(s: Sizes) {
    && s.bin + 19 <= RecAt(s) && RecAt(s) % 16 == 0
    && RecAt(s) + s.rec <= UniformsAt(s) && UniformsAt(s) % 16 == 0
    && UniformsAt(s) + s.uniforms <= IndexAtOffset(s) && IndexAtOffset(s) % 16 == 0
    && IndexAtOffset(s) + s.index <= ExecSize(s)
  }

  /** The size the buffer would need if ULONGs did not wrap. */
  function ExecTotal(s: Sizes): nat {
    RoundUp(RoundUp(s.bin + 256, 16) + RoundUp(s.rec, 16) + RoundUp(s.uniforms, 16) + s.index + 32, 4096)
  }

  lemma Up16Wraps(x: u32)
    ensures Up(x, 16) == Wrap(RoundUp(x, 16))
  {
    if x + 15 > U32_MAX {
      assert Wrap(x + 15) == x + 15 - 0x1_0000_0000 && RoundUp(x, 16) == 0x1_0000_0000;
    }
  }

  lemma Up4096Wraps(x: u32)
    ensures Up(x, 4096) == Wrap(RoundUp(x, 4096))
  {
    if x + 4095 > U32_MAX {
      assert Wrap(x + 4095) == x + 4095 - 0x1_0000_0000 && RoundUp(x, 4096) == 0x1_0000_0000;
    }
  }

  lemma UpPlain(x: nat, n: u32)
    requires n in {16, 4096} && x + n <= 0x1_0000_0000
    ensures Wrap(x) == x && Up(x, n) == RoundUp(x, n)
  {
  }

  lemma RoundUpSum(x: nat, y: nat)
    requires x % 16 == 0
    ensures RoundUp(x + y, 16) == x + RoundUp(y, 16)
  {
  }

  /** Rounding up and 32-bit wrap-around commute. */
  lemma RoundWraps(x: nat, n: nat)
    requires n in {16, 4096}
    ensures Wrap(RoundUp(Wrap(x), n)) == Wrap(RoundUp(x, n))
  {
    hide RoundUp;
    var q, r := x / 0x1_0000_0000, Wrap(x);
    assert x == q * 0x1_0000_0000 + r;
    RoundUpPast(q, r, n);
    WrapMultiple(q, RoundUp(r, n));
  }

  lemma WrapMultiple(q: nat, y: nat)
    ensures Wrap(q * 0x1_0000_0000 + y) == Wrap(y)
  {
  }

  lemma RoundUpPast(q: nat, r: nat, n: nat)
    requires n in {16, 4096}
    ensures RoundUp(q * 0x1_0000_0000 + r, n) == q * 0x1_0000_0000 + RoundUp(r, n)
  {
    if n == 16 {
      assert (q * 0x1_0000_0000 + r + 15) / 16 == q * 0x1000_0000 + (r + 15) / 16;
    } else {
      assert (q * 0x1_0000_0000 + r + 4095) / 4096 == q * 0x10_0000 + (r + 4095) / 4096;
    }
  }

  /** What the code computes is the total modulo 2^32. */
  lemma ExecSizeIsTotal(s: Sizes)
    ensures ExecSize(s) == Wrap(ExecTotal(s))
  {
    hide RoundUp, Wrap, Up;
    var a, b, c := RoundUp(s.bin + 256, 16), RoundUp(s.rec, 16), RoundUp(s.uniforms, 16);
    Up16Wraps(Wrap(s.bin + 256));
    Up16Wraps(s.rec);
    Up16Wraps(s.uniforms);
    Up4096Wraps(Wrap(Up(Wrap(s.bin + 256), 16) + Up(s.rec, 16) + Up(s.uniforms, 16) + s.index + 32));
    RoundWraps(s.bin + 256, 16);
    ThreeWraps(a, b, c, s.index + 32);
    RoundWraps(a + b + c + s.index + 32, 4096);
  }

  lemma ThreeWraps(a: nat, b: nat, c: nat, d: nat)
    ensures Wrap(Wrap(a) + Wrap(b) + Wrap(c) + d) == Wrap(a + b + c + d)
  {
    WrapTwice(a, Wrap(b) + Wrap(c) + d);
    WrapTwice(b, a + Wrap(c) + d);
    WrapTwice(c, a + b + d);
  }

  /** Disjoint, aligned and inside the buffer, exactly when the total fits a ULONG. */
  lemma LayoutSoundExactly(s: Sizes)
    ensures LayoutSound(s) <==> ExecTotal(s) <= U32_MAX
  {
    hide RoundUp, Wrap, Up, RecAt, UniformsAt, IndexAtOffset, ExecSize;
    ExecSizeIsTotal(s);
    if ExecTotal(s) <= U32_MAX {
      LayoutWithin(s);
    } else if LayoutSound(s) {
      TotalBounds(s);
      SmallWrap(ExecTotal(s));
    }
  }

  lemma SmallWrap(x: nat)
    requires 0x1_0000_0000 <= x <= U32_MAX + 5000
    ensures Wrap(x) == x - 0x1_0000_0000
  {
  }

  lemma TotalBounds(s: Sizes)
    ensures s.bin + s.rec + s.uniforms + s.index + 288 <= ExecTotal(s) <= s.bin + s.rec + s.uniforms + s.index + 4500
  {
    hide RoundUp;
  }

  lemma LayoutWithin(s: Sizes)
    requires ExecTotal(s) <= U32_MAX
    ensures LayoutSound(s) && ExecSize(s) == ExecTotal(s)
  {
    hide RoundUp, Wrap, Up, RecAt, UniformsAt, IndexAtOffset, ExecSize;
    ExecSizeIsTotal(s);
    WrapSmall(ExecTotal(s));
    OffsetsPlain(s);
    UpAligned(Wrap(s.bin + 256));
    UpAligned(Wrap(RecAt(s) + s.rec));
    UpAligned(Wrap(UniformsAt(s) + s.uniforms));
    assert RecAt(s) % 16 == 0 && UniformsAt(s) % 16 == 0 && IndexAtOffset(s) % 16 == 0 by {
      AtsAligned(s);
    }
  }

  lemma AtsAligned(s: Sizes)
    ensures RecAt(s) % 16 == 0 && UniformsAt(s) % 16 == 0 && IndexAtOffset(s) % 16 == 0
  {
    hide Wrap, Up;
    UpAligned(Wrap(s.bin + 256));
    UpAligned(Wrap(RecAt(s) + s.rec));
    UpAligned(Wrap(UniformsAt(s) + s.uniforms));
  }

  lemma UpAligned(x: u32)
    ensures Up(x, 16) % 16 == 0
  {
  }

  lemma OffsetsPlain(s: Sizes)
    requires ExecTotal(s) <= U32_MAX
    ensures RecAt(s) == RoundUp(s.bin + 256, 16)
    ensures UniformsAt(s) == RecAt(s) + RoundUp(s.rec, 16)
    ensures IndexAtOffset(s) == UniformsAt(s) + RoundUp(s.uniforms, 16)
  {
    hide RoundUp, Wrap, Up;
    UpPlain(s.bin + 256, 16);
    assert RecAt(s) == RoundUp(s.bin + 256, 16);
    UpPlain(RecAt(s) + s.rec, 16);
    RoundUpSum(RecAt(s), s.rec);
    assert UniformsAt(s) == RecAt(s) + RoundUp(s.rec, 16);
    AtsAligned(s);
    UpPlain(UniformsAt(s) + s.uniforms, 16);
    RoundUpSum(UniformsAt(s), s.uniforms);
  }

  /** The offsets and sizes a submission's buffers are given. */
  datatype Layout = Layout(recAt: u32, uniformsAt: u32, indexAt: u32, execSize: u32, tileAlloc: nat, tileAllocSize: nat)

  function LayoutOf(s: Sizes, tiles: nat): Layout {
    Layout(RecAt(s), UniformsAt(s), IndexAtOffset(s), ExecSize(s), TileAllocOffset(tiles), TileAllocSize(tiles))
  }

  // ---- GL_SHADER_STATE addresses ----

  /** The record addresses a list announces, in order. */
  function Announced(ps: seq<Packet>): seq<u32> {
    if ps == [] then []
    else Announced(ps[..|ps| - 1]) + (if ps[|ps| - 1].ShaderState? then [ps[|ps| - 1].address] else [])
  }

  predicate AnnouncedAt(env: BinEnv, st: BinState, k: nat)
    requires k < |st.lows| && |Announced(st.out)| == |st.lows|
  {
    var address := Announced(st.out)[k];
    address % 16 == st.lows[k] && address - address % 16 == Wrap(env.recBus + RecordOffset(st.lows, k))
  }

  /** One address per shader state, each naming its record. */
  predicate AllAnnounced(env: BinEnv, st: BinState) {
    && |Announced(st.out)| == |st.lows|
    && forall k: nat :: k < |st.lows| ==> AnnouncedAt(env, st, k)
  }

  lemma AnnouncedSnoc(ps: seq<Packet>, p: Packet)
    ensures Announced(ps + [p]) == Announced(ps) + if p.ShaderState? then [p.address] else []
  {
    assert (ps + [p])[..|ps|] == ps;
  }

  lemma StepAnnounces(env: BinEnv, st: BinState, p: Packet)
    requires ValidEnv(env) && ValidState(env, st) && Sized(p) && Step(env, st, p).Some?
    requires RecordsPlaced(env, st) && AllAnnounced(env, st)
    ensures AllAnnounced(env, Step(env, st, p).value)
  {
    hide PatchFlags, Fetch, RecordOffset, Announced;
    var st' := Step(env, st, p).value;
    if p.ShaderState? {
      StateAnnounced(env, st, p.address);
    } else if p.GemHandles? {
      SameAnnounced(env, st, st');
    } else {
      assert st'.lows == st.lows && |st'.out| == |st.out| + 1 && st'.out[..|st.out|] == st.out;
      var q := st'.out[|st.out|];
      assert st'.out == st.out + [q] && !q.ShaderState?;
      AnnouncedSnoc(st.out, q);
      assert Announced(st'.out) == Announced(st.out);
      SameAnnounced(env, st, st');
    }
  }

  lemma SameAnnounced(env: BinEnv, st: BinState, st': BinState)
    requires AllAnnounced(env, st) && st'.lows == st.lows && Announced(st'.out) == Announced(st.out)
    ensures AllAnnounced(env, st')
  {
    forall k: nat | k < |st.lows|
      ensures AnnouncedAt(env, st', k)
    {
      assert AnnouncedAt(env, st, k);
    }
  }

  lemma StateAnnounced(env: BinEnv, st: BinState, address: u32)
    requires ValidEnv(env) && ValidState(env, st) && StepShaderState(env, st, address).Some?
    requires RecordsPlaced(env, st) && AllAnnounced(env, st)
    ensures AllAnnounced(env, StepShaderState(env, st, address).value)
  {
    hide RecordSize, Announced, RoundUp, BitOr, AttrCount, ValidState, Wrap, NextRecord, RecordOffset;
    var st' := StepShaderState(env, st, address).value;
    var n, low := |st.lows|, address % 16;
    AnnouncedSnoc(st.out, ShaderState(PatchedAddress(st.recPos, low)));
    forall k: nat | k < |st'.lows|
      ensures AnnouncedAt(env, st', k)
    {
      RecordOffsetPrefix(st.lows, st'.lows, if k < n then k else n);
      if k < n {
        assert AnnouncedAt(env, st, k);
      } else {
        assert PatchedAddress(st.recPos, low) - low == st.recPos;
      }
    }
  }

  lemma {:induction false} CompileAnnounces(env: BinEnv, st: BinState, s: seq<byte>)
    requires ValidEnv(env) && ValidState(env, st) && Compile(env, st, s).Some?
    requires RecordsPlaced(env, st) && AllAnnounced(env, st)
    ensures AllAnnounced(env, Compile(env, st, s).value)
    decreases |s|
  {
    hide AllAnnounced, RecordsPlaced, Step;
    if s != [] {
      var size := PacketSize(s[0]);
      var p := Decode(true, s[..size]);
      StepAnnounces(env, st, p);
      StepPlaces(env, st, p);
      CompileAnnounces(env, Step(env, st, p).value, s[size..]);
    }
  }

  /**
   * The address in the k-th GL_SHADER_STATE, less its flags and less the bus
   * address of the exec buffer, is the offset at which record k is written, and
   * the record ends inside its section.
   */
  lemma RecordWhereAnnounced(recAt: u32, execBus: u32, env: BinEnv, st: BinState, s: seq<byte>, renv: RelocEnv, k: nat)
    requires recAt + |renv.rec| <= U32_MAX - execBus && env.recBus == execBus + recAt
    requires ValidEnv(env) && ValidState(env, st) && st.lows == [] && st.out == [] && st.recPos == env.recBus
    requires Compile(env, st, s).Some?
    requires ValidReloc(renv) && renv.lows == Compile(env, st, s).value.lows && k < |renv.lows|
    requires RunRecords(renv, |renv.lows|).Some?
    ensures var fin, at := Compile(env, st, s).value, recAt + RecordOffset(renv.lows, k);
            && |Announced(fin.out)| == |renv.lows| && k < |Announced(fin.out)|
            && Announced(fin.out)[k] == execBus + at + renv.lows[k]
            && at + RecordSize(renv.lows[k]) <= recAt + |renv.rec|
  {
    hide RecordOffset, RecordSize, ValidReloc, RunRecords, ValidEnv, ValidState;
    var fin := Compile(env, st, s).value;
    StartPlaced(env, st);
    CompileAnnounces(env, st, s);
    RecordsFit(renv, |renv.lows|, k);
    assert AnnouncedAt(env, fin, k);
    WrapSmall(env.recBus + RecordOffset(renv.lows, k));
  }

  lemma StartPlaced(env: BinEnv, st: BinState)
    requires st.lows == [] && st.out == [] && st.recPos == env.recBus
    ensures RecordsPlaced(env, st) && AllAnnounced(env, st)
  {
    WrapSmall(env.recBus);
  }

  // ---- The tile buffer ----

  /** The tiles of the counts the prescan found, row by row. */
  function Tiles(scan: Scan): nat {
    Times(scan.tilesX, scan.tilesY)
  }

  function Times(x: nat, y: nat): nat {
    if y == 0 then 0 else Times(x, y - 1) + x
  }

  lemma {:induction false} TimesIs(x: nat, y: nat)
    ensures Times(x, y) == x * y
  {
    if y > 0 {
      TimesIs(x, y - 1);
    }
  }

  function TileStateSize(tiles: nat): nat {
    48 * tiles
  }

  function TileAllocOffset(tiles: nat): nat {
    RoundUp(TileStateSize(tiles), 4096)
  }

  function TileAllocSize(tiles: nat): nat {
    RoundUp(32 * tiles, 256) + 0x10_0000
  }

  /** Index of a tile's list, by the row width the binner was told. */
  function TileIndex(a: RclArgs, x: byte, y: byte): nat {
    y * a.binTilesX + x
  }

  /** The submission's tile buffer: sized for scan, the counts of the prescan, at bus address tileBus. */
  predicate TileBuffer(a: RclArgs, scan: Scan, tileBus: u32) {
    && a.maxX < scan.tilesX && a.maxY < scan.tilesY && a.binTilesX <= scan.tilesX
    && tileBus + TileAllocOffset(Tiles(scan)) + TileAllocSize(Tiles(scan)) <= 0x1_0000_0000
    && a.tileAllocBus == tileBus + TileAllocOffset(Tiles(scan))
  }

  lemma IndexWithin(x: nat, y: nat, width: nat, scanX: nat, scanY: nat)
    requires x < scanX && y < scanY && width <= scanX
    ensures 0 <= y * width + x < scanX * scanY
  {
    assert y * width <= y * scanX <= (scanY - 1) * scanX == scanX * scanY - scanX;
  }

  /** Every branch goes to a 32-byte list inside the tile-alloc region, behind all the tile state. */
  lemma BranchInTileAlloc(a: RclArgs, scan: Scan, tileBus: u32, x: byte, y: byte)
    requires TileBuffer(a, scan, tileBus) && x <= a.maxX && y <= a.maxY
    ensures var tiles, target := Tiles(scan), SublistAddress(a, x, y);
            && target == a.tileAllocBus + 32 * TileIndex(a, x, y)
            && tileBus + TileStateSize(tiles) <= a.tileAllocBus <= target
            && target + 32 <= a.tileAllocBus + TileAllocSize(tiles)
  {
    hide RoundUp, Wrap;
    TimesIs(scan.tilesX, scan.tilesY);
    IndexWithin(x, y, a.binTilesX, scan.tilesX, scan.tilesY);
    WrapSmall(a.tileAllocBus + 32 * TileIndex(a, x, y));
  }

  /** No two tiles of the rectangle share a list. */
  predicate TargetsDistinct(a: RclArgs) {
    forall x, y, x', y' :: InRectangle(a, x, y) && InRectangle(a, x', y') &&
        SublistAddress(a, x, y) == SublistAddress(a, x', y')
      ==> x == x' && y == y'
  }

  predicate InRectangle(a: RclArgs, x: byte, y: byte) {
    a.minX <= x <= a.maxX && a.minY <= y <= a.maxY
  }

  lemma RowsApart(y: int, y': int, width: int)
    requires y < y' && width >= 0
    ensures y' * width - y * width >= width
  {
    assert y' * width - y * width == (y' - y - 1) * width + width;
  }

  lemma SameListSameTile(a: RclArgs, scan: Scan, tileBus: u32, x: byte, y: byte, x': byte, y': byte)
    requires ValidArgs(a) && TileBuffer(a, scan, tileBus) && (XTiles(a) <= a.binTilesX || YTiles(a) == 1)
    requires InRectangle(a, x, y) && InRectangle(a, x', y') && SublistAddress(a, x, y) == SublistAddress(a, x', y')
    ensures x == x' && y == y'
  {
    hide SublistAddress, TileBuffer, RoundUp;
    BranchInTileAlloc(a, scan, tileBus, x, y);
    BranchInTileAlloc(a, scan, tileBus, x', y');
    assert y * a.binTilesX + x == y' * a.binTilesX + x';
    if y < y' {
      RowsApart(y, y', a.binTilesX);
    } else if y' < y {
      RowsApart(y', y, a.binTilesX);
    }
  }

  /** In narrow rows the start of a row is also the place of a tile of the row above. */
  lemma NarrowRowsCollide(a: RclArgs)
    requires ValidArgs(a) && a.binTilesX < XTiles(a) && YTiles(a) > 1
    ensures !TargetsDistinct(a)
  {
    hide Wrap;
    var w := a.binTilesX;
    assert (a.minY + 1) * w == a.minY * w + w;
    assert SublistAddress(a, a.minX + w, a.minY) == SublistAddress(a, a.minX, a.minY + 1);
    assert InRectangle(a, a.minX + w, a.minY) && InRectangle(a, a.minX, a.minY + 1);
  }

  /** Lists are distinct exactly when the binner's rows are at least as wide as the rectangle, or there is one row. */
  lemma TargetsDistinctExactly(a: RclArgs, scan: Scan, tileBus: u32)
    requires ValidArgs(a) && TileBuffer(a, scan, tileBus)
    ensures TargetsDistinct(a) <==> XTiles(a) <= a.binTilesX || YTiles(a) == 1
    ensures a.binTilesX > a.maxX ==> TargetsDistinct(a)
  {
    hide SublistAddress, TileBuffer;
    if XTiles(a) <= a.binTilesX || YTiles(a) == 1 {
      hide InRectangle, YTiles;
      forall x, y, x', y' | InRectangle(a, x, y) && InRectangle(a, x', y') &&
          SublistAddress(a, x, y) == SublistAddress(a, x', y')
        ensures x == x' && y == y'
      {
        SameListSameTile(a, scan, tileBus, x, y, x', y');
      }
    } else {
      NarrowRowsCollide(a);
    }
  }

  /** The tile counts of the submission: the rectangle's, raised by every binner configuration packet. */
  lemma ScanCoversRectangle(a: RclArgs, env: BinEnv, st: BinState, s: seq<byte>)
    requires ValidEnv(env) && ValidState(env, st) && Compile(env, st, s).Some?
    requires st.tilesX == a.maxX + 1 && st.tilesY == a.maxY + 1
    requires Prescan(Scan(0, a.maxX + 1, a.maxY + 1), s).Some?
    requires a.binTilesX == Compile(env, st, s).value.tilesX
    ensures var scan := Prescan(Scan(0, a.maxX + 1, a.maxY + 1), s).value;
            a.maxX < scan.tilesX && a.maxY < scan.tilesY && a.binTilesX <= scan.tilesX
  {
    hide Compile, Prescan;
    TilesWithinScan(env, st, s, Scan(0, a.maxX + 1, a.maxY + 1));
  }

  // ---- The render list's buffer ----

  function RclMaxSize(a: RclArgs): nat
    requires ValidArgs(a)
  {
    11 + 14 + 3 + 7 + XTiles(a) * YTiles(a) * (7 + 3 + 7 + 7 + 3 + 1 + 5 + 5 + 3 + 5 + 3 + 7 + 3 + 1) + 64
  }

  lemma AtMost(x: nat, y: nat)
    requires x <= 255 && y <= 255
    ensures x * y <= 65025
  {
    assert x * y <= 255 * y;
  }

  /** The overflow branch of build_rcl is dead, with at least 64 bytes to spare. */
  lemma RenderListFits(a: RclArgs)
    requires ValidArgs(a)
    ensures |EncodeOps(RclOps(a))| + 64 <= RclMaxSize(a) <= U32_MAX
  {
    hide EncodeOps, RclOps;
    RenderListBound(a);
    AtMost(XTiles(a), YTiles(a));
  }
}
