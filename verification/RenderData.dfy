/** What a render list makes the V3D configure, clear, load and store, tile by tile. */
module RenderData {
  import opened Bytes
  import opened RenderList

  // ---- The tile buffer ----

  datatype Target = Target(address: u32, width: u16, height: u16, bits: u16)

  datatype Clear = Clear(colour0: u32, colour1: u32, depth: u32, stencil: byte)

  /**
   * One transfer between tile buffer and memory. A part is the buffer its bits
   * select; a block is the raw contents of a tile, colour or depth or both.
   * The low four bits of an address are flags.
   */
  datatype Move =
    | LoadPart(bits: u16, base: u32)
    | LoadBlock(base: u32, colour: bool, depth: bool)
    | StorePart(bits: u16, base: u32, clears: bool)
    | StoreBlock(base: u32, colour: bool, depth: bool, clears: bool)
    | StoreTarget(target: Option<Target>)

  datatype Access = Access(tile: Option<(byte, byte)>, move: Move)

  /** A load waits for the next coordinates; a store uses them up. */
  datatype Gpu = Gpu(target: Option<Target>, clear: Option<Clear>, waiting: Option<Move>, at: Option<(byte, byte)>,
                     log: seq<Access>)

  const GPU_START := Gpu(None, None, None, None, [])

  function Base(v: u32): u32 {
    v / 16 * 16
  }

  /** Bit 13 of a store's bits keeps the colour buffer from being cleared. */
  function Format(bits: u16): u16 {
    if bits / 0x2000 % 2 == 1 then bits - 0x2000 else bits
  }

  function Drive(g: Gpu, op: RclOp): Gpu {
    match op
    case ClearColors(c0, c1, z, s) => g.(clear := Some(Clear(c0, c1, z, s)))
    case RenderConfig(address, width, height, bits) => g.(target := Some(Target(address, width, height, bits)))
    case TileCoords(x, y) =>
      g.(at := Some((x, y)), waiting := None,
         log := g.log + if g.waiting.Some? then [Access(Some((x, y)), g.waiting.value)] else [])
    case LoadGeneral(bits, v) => g.(waiting := Some(LoadPart(bits, Base(v))))
    case LoadFullRes(v) => g.(waiting := Some(LoadBlock(Base(v), v % 2 == 0, v / 2 % 2 == 0)))
    case StoreGeneral(bits, v) =>
      g.(at := None, log := g.log +
           if bits % 8 == 0 then [] else [Access(g.at, StorePart(Format(bits), Base(v), bits / 0x2000 % 2 == 0))])
    case StoreFullRes(v) =>
      g.(at := None,
         log := g.log + [Access(g.at, StoreBlock(Base(v), v % 2 == 0, v / 2 % 2 == 0, v / 4 % 2 == 0))])
    case StoreMs => g.(at := None, log := g.log + [Access(g.at, StoreTarget(g.target))])
    case StoreMsEof => g.(at := None, log := g.log + [Access(g.at, StoreTarget(g.target))])
    case WaitSemaphore => g
    case Branch(_) => g
  }

  function DriveAll(g: Gpu, ops: seq<RclOp>): Gpu
    decreases |ops|
  {
    if ops == [] then g else DriveAll(Drive(g, ops[0]), ops[1..])
  }

  lemma {:induction false} DriveAppend(g: Gpu, a: seq<RclOp>, b: seq<RclOp>)
    ensures DriveAll(g, a + b) == DriveAll(DriveAll(g, a), b)
    decreases |a|
  {
    if a == [] {
      assert a + b == b;
    } else {
      DriveAppend(Drive(g, a[0]), a[1..], b);
      assert (a + b)[1..] == a[1..] + b;
    }
  }

  lemma DriveOne(g: Gpu, op: RclOp)
    ensures DriveAll(g, [op]) == Drive(g, op)
  {
    assert [op][1..] == [];
  }

  // ---- What is meant ----

  /** The first byte of a surface. */
  function Origin(s: Surface): u32 {
    (s.bus + s.offset) % 0x1_0000_0000
  }

  /** The block of tile (x, y): 16384 bytes each, in rows of as many tiles as the width needs. */
  function BlockOf(a: RclArgs, s: Surface, x: byte, y: byte): u32 {
    (s.bus + s.offset + 16384 * ((a.width + 63) / 64 * y + x)) % 0x1_0000_0000
  }

  function TargetOf(a: RclArgs): Target {
    Target(if a.colorWrite.Some? then Origin(a.colorWrite.value) else 0, a.width, a.height, a.colorWriteBits)
  }

  /** Colour comes from its read surface, as a block without depth or as the part its bits name. */
  function ColourLoads(a: RclArgs, x: byte, y: byte): seq<Move> {
    match a.colorRead
    case None => []
    case Some(s) =>
      var v := BlockOf(a, s, x, y);
      [if s.fullRes then LoadBlock(Base(v), v % 2 == 0, false) else LoadPart(s.bits, Base(Origin(s)))]
  }

  function DepthLoads(a: RclArgs, x: byte, y: byte): seq<Move> {
    match a.zsRead
    case None => []
    case Some(s) =>
      var v := BlockOf(a, s, x, y);
      [if s.fullRes then LoadBlock(Base(v), false, v / 2 % 2 == 0) else LoadPart(s.bits, Base(Origin(s)))]
  }

  /** Every write surface is stored to once; only the last store of a tile lets the tile buffer be cleared. */
  function ColourBlocks(a: RclArgs, x: byte, y: byte): seq<Move> {
    match a.msaaColor
    case None => []
    case Some(s) =>
      var v, last := BlockOf(a, s, x, y), a.msaaZs.None? && a.zsWrite.None? && a.colorWrite.None?;
      [StoreBlock(Base(v), v % 2 == 0, false, last && v / 4 % 2 == 0)]
  }

  function DepthBlocks(a: RclArgs, x: byte, y: byte): seq<Move> {
    match a.msaaZs
    case None => []
    case Some(s) =>
      var v, last := BlockOf(a, s, x, y), a.zsWrite.None? && a.colorWrite.None?;
      [StoreBlock(Base(v), false, v / 2 % 2 == 0, last && v / 4 % 2 == 0)]
  }

  function DepthParts(a: RclArgs): seq<Move> {
    match a.zsWrite
    case None => []
    case Some(s) =>
      if s.bits % 8 == 0 then []
      else [StorePart(Format(s.bits), Base(Origin(s)), a.colorWrite.None? && s.bits / 0x2000 % 2 == 0)]
  }

  function TargetStores(a: RclArgs): seq<Move> {
    if a.colorWrite.Some? then [StoreTarget(Some(TargetOf(a)))] else []
  }

  /** Everything transferred for tile (x, y), in order. */
  function MovesOf(a: RclArgs, x: byte, y: byte): seq<Move> {
    ColourLoads(a, x, y) + DepthLoads(a, x, y)
    + ColourBlocks(a, x, y) + DepthBlocks(a, x, y) + DepthParts(a) + TargetStores(a)
  }

  function At(x: byte, y: byte, moves: seq<Move>): (r: seq<Access>)
    ensures |r| == |moves|
  {
    seq(|moves|, i requires 0 <= i < |moves| => Access(Some((x, y)), moves[i]))
  }

  // ---- Flag bits ----

  /** Or-ing a bit of the low four in leaves the rest of the word. */
  lemma SetLow(v: u32, b: u32)
    requires b in {1, 2, 4, 8}
    ensures Base(Set(v, b)) == Base(v)
    ensures b != 1 ==> Set(v, b) % 2 == v % 2
    ensures b != 2 ==> Set(v, b) / 2 % 2 == v / 2 % 2
    ensures b != 4 ==> Set(v, b) / 4 % 2 == v / 4 % 2
    ensures b < 8 ==> Set(v, b) / b % 2 == 1
  {
    var q, r := v / 16, v % 16;
    LowBits(q, r);
    NibbleOr(r);
    NibbleOrHigh(r);
    if !BitSet(v, b) {
      LowBits(q, r + b);
    }
  }

  lemma NibbleOr(r: nat)
    requires r < 16
    ensures r % 2 == 0 ==> r + 1 < 16 && (r + 1) % 2 == 1 && (r + 1) / 2 == r / 2 && (r + 1) / 4 == r / 4
    ensures r / 2 % 2 == 0 ==> r + 2 < 16 && (r + 2) % 2 == r % 2 && (r + 2) / 2 % 2 == 1 && (r + 2) / 4 == r / 4
  {
  }

  lemma NibbleOrHigh(r: nat)
    requires r < 16
    ensures r / 4 % 2 == 0 ==> r + 4 < 16 && (r + 4) % 2 == r % 2 && (r + 4) / 2 % 2 == r / 2 % 2
                               && (r + 4) / 4 % 2 == 1
    ensures r / 8 == 0 ==> r + 8 < 16 && (r + 8) % 2 == r % 2 && (r + 8) / 2 % 2 == r / 2 % 2
                           && (r + 8) / 4 % 2 == r / 4 % 2
  {
  }

  lemma LowBits(q: nat, r: nat)
    requires r < 16
    ensures var v := 16 * q + r;
            v / 16 == q && v % 2 == r % 2 && v / 2 % 2 == r / 2 % 2 && v / 4 % 2 == r / 4 % 2 && v / 8 % 2 == r / 8
  {
    var v, r1, r2 := 16 * q + r, r / 2, r / 4;
    DivUnique(v, q, 16, r);
    DivUnique(v, 8 * q + r1, 2, r % 2);
    DivUnique(v / 2, 4 * q + r2, 2, r1 % 2);
    DivUnique(v, 4 * q + r2, 4, r % 4);
    DivUnique(v / 4, 2 * q + r / 8, 2, r2 % 2);
    DivUnique(v, 2 * q + r / 8, 8, r % 8);
  }

  lemma SetKeepClear(bits: u16)
    ensures Format(Set(bits, DISABLE_COLOR_CLEAR)) == Format(bits) && Set(bits, DISABLE_COLOR_CLEAR) / 0x2000 % 2 == 1
    ensures Set(bits, DISABLE_COLOR_CLEAR) % 8 == bits % 8
  {
  }

  lemma FlagMoves(v: u32, disable: u32, lastWrite: bool, last: bool)
    requires disable in {1, 2}
    ensures var r := FullResFlags(v, disable, lastWrite, last);
            && Base(r) == Base(v) && (r / 4 % 2 == 0 <==> lastWrite && v / 4 % 2 == 0)
            && (disable == 2 ==> r % 2 == v % 2 && r / 2 % 2 == 1)
            && (disable == 1 ==> r % 2 == 1 && r / 2 % 2 == v / 2 % 2)
    ensures var r := Set(v, disable);
            && Base(r) == Base(v)
            && (disable == 2 ==> r % 2 == v % 2 && r / 2 % 2 == 1)
            && (disable == 1 ==> r % 2 == 1 && r / 2 % 2 == v / 2 % 2)
  {
    hide Set, Base;
    var w := Set(v, disable);
    SetLow(v, disable);
    SetLow(w, DISABLE_CLEAR_ALL);
    SetLow(w, EOF);
  }

  // ---- One tile ----

  /** Coordinates, if an earlier store used them up, and a store. */
  lemma CoordsThen(g: Gpu, coords: bool, x: byte, y: byte, op: RclOp)
    requires g.waiting.None? && (coords || g.at == Some((x, y)))
    ensures DriveAll(g, (if coords then [TileCoords(x, y)] else []) + [op]) == Drive(g.(at := Some((x, y))), op)
  {
    hide Drive;
    var h := g.(at := Some((x, y)));
    DriveOne(h, op);
    if coords {
      assert Drive(g, TileCoords(x, y)) == h by {
        CoordsStep(g, x, y);
      }
      assert ([TileCoords(x, y)] + [op])[1..] == [op];
    } else {
      assert [] + [op] == [op] && h == g;
    }
  }

  lemma CoordsStep(g: Gpu, x: byte, y: byte)
    ensures Drive(g, TileCoords(x, y))
         == g.(at := Some((x, y)), waiting := None,
               log := g.log + if g.waiting.Some? then [Access(Some((x, y)), g.waiting.value)] else [])
    ensures g.waiting.None? ==> Drive(g, TileCoords(x, y)) == g.(at := Some((x, y)))
  {
  }

  lemma LoadStep(g: Gpu, a: RclArgs, s: Surface, x: byte, y: byte, disable: u32)
    requires disable in {1, 2}
    ensures var v := BlockOf(a, s, x, y);
            Drive(g, LoadOp(a, s, x, y, disable))
              == g.(waiting := Some(
                      if s.fullRes then LoadBlock(Base(v), disable == 2 && v % 2 == 0, disable == 1 && v / 2 % 2 == 0)
                      else LoadPart(s.bits, Base(Origin(s)))))
  {
    hide Set, Base;
    FlagMoves(BlockOf(a, s, x, y), disable, false, false);
  }

  lemma EnterRun(g: Gpu, a: RclArgs, x: byte, y: byte, first: bool)
    ensures DriveAll(g, EnterOps(a, x, y, first)) == Drive(g, TileCoords(x, y))
  {
    hide SublistAddress;
    var ops, h := EnterOps(a, x, y, first), Drive(g, TileCoords(x, y));
    assert ops == [TileCoords(x, y)] + ops[1..];
    DriveAppend(g, [TileCoords(x, y)], ops[1..]);
    DriveOne(g, TileCoords(x, y));
    var b := Branch(SublistAddress(a, x, y));
    DriveOne(h, b);
    if first {
      assert ops[1..] == [WaitSemaphore] + [b];
      DriveAppend(h, [WaitSemaphore], [b]);
      DriveOne(h, WaitSemaphore);
    } else {
      assert ops[1..] == [b];
    }
  }

  /** The loads of a tile are done when its coordinates come. */
  lemma LoadsRun(g: Gpu, a: RclArgs, x: byte, y: byte, first: bool)
    requires g.waiting.None?
    ensures DriveAll(g, LoadColorOps(a, x, y) + LoadZsOps(a, x, y) + EnterOps(a, x, y, first))
         == g.(at := Some((x, y)), log := g.log + At(x, y, ColourLoads(a, x, y) + DepthLoads(a, x, y)))
  {
    hide Drive, LoadOp, EnterOps, BlockOf, Base, Origin;
    var p1, p2, p3 := LoadColorOps(a, x, y), LoadZsOps(a, x, y), EnterOps(a, x, y, first);
    DriveAppend(g, p1 + p2, p3);
    DriveAppend(g, p1, p2);
    var g1 := DriveAll(g, p1);
    var g2 := DriveAll(g1, p2);
    EnterRun(g2, a, x, y, first);
    CoordsStep(g2, x, y);
    if a.colorRead.Some? {
      LoadStep(g, a, a.colorRead.value, x, y, DISABLE_ZS);
      DriveOne(g, LoadOp(a, a.colorRead.value, x, y, DISABLE_ZS));
    }
    if a.zsRead.Some? {
      var op := LoadOp(a, a.zsRead.value, x, y, DISABLE_COLOR);
      if a.colorRead.Some? {
        FlushStep(g1, x, y);
        var h := DriveAll(g1, [TileCoords(x, y), StoreGeneral(STORE_NONE, 0)]);
        DriveAppend(g1, [TileCoords(x, y), StoreGeneral(STORE_NONE, 0)], [op]);
        LoadStep(h, a, a.zsRead.value, x, y, DISABLE_COLOR);
        DriveOne(h, op);
      } else {
        assert p2 == [op] && g1 == g;
        LoadStep(g1, a, a.zsRead.value, x, y, DISABLE_COLOR);
        DriveOne(g1, op);
      }
    }
    assert At(x, y, ColourLoads(a, x, y) + DepthLoads(a, x, y))
        == At(x, y, ColourLoads(a, x, y)) + At(x, y, DepthLoads(a, x, y));
  }

  /** Coordinates and a store of nothing make a waiting load happen. */
  lemma FlushStep(g: Gpu, x: byte, y: byte)
    ensures DriveAll(g, [TileCoords(x, y), StoreGeneral(STORE_NONE, 0)])
         == g.(at := None, waiting := None,
               log := g.log + if g.waiting.Some? then [Access(Some((x, y)), g.waiting.value)] else [])
  {
    var ops := [TileCoords(x, y), StoreGeneral(STORE_NONE, 0)];
    assert ops[1..] == [StoreGeneral(STORE_NONE, 0)];
    DriveOne(Drive(g, TileCoords(x, y)), StoreGeneral(STORE_NONE, 0));
  }

  /** Ready to store: no load waits, and coordinates are there unless an earlier store used them up. */
  predicate Ready(g: Gpu, a: RclArgs, x: byte, y: byte, used: bool) {
    g.waiting.None? && g.target == Some(TargetOf(a)) && (!used ==> g.at == Some((x, y)))
  }

  /** The state after a group of stores. */
  predicate Stored(g: Gpu, h: Gpu, x: byte, y: byte, moves: seq<Move>) {
    h == g.(at := h.at, log := g.log + At(x, y, moves))
  }

  lemma BlocksRun(g: Gpu, a: RclArgs, x: byte, y: byte, last: bool)
    requires Ready(g, a, x, y, false)
    ensures Stored(g, DriveAll(g, MsaaColorOps(a, x, y, last)), x, y, ColourBlocks(a, x, y))
    ensures Ready(DriveAll(g, MsaaColorOps(a, x, y, last)), a, x, y, a.msaaColor.Some?)
  {
    hide FullResFlags, Base, TargetOf;
    assert g.log + At(x, y, []) == g.log;
    if a.msaaColor.Some? {
      var v, lastWrite := BlockOf(a, a.msaaColor.value, x, y), a.msaaZs.None? && a.zsWrite.None? && a.colorWrite.None?;
      FlagMoves(v, DISABLE_ZS, lastWrite, last);
      DriveOne(g, StoreFullRes(FullResFlags(v, DISABLE_ZS, lastWrite, last)));
    }
  }

  lemma DepthBlocksRun(g: Gpu, a: RclArgs, x: byte, y: byte, last: bool)
    requires Ready(g, a, x, y, a.msaaColor.Some?)
    ensures Stored(g, DriveAll(g, MsaaZsOps(a, x, y, last)), x, y, DepthBlocks(a, x, y))
    ensures Ready(DriveAll(g, MsaaZsOps(a, x, y, last)), a, x, y, a.msaaColor.Some? || a.msaaZs.Some?)
  {
    hide FullResFlags, Base, TargetOf;
    assert g.log + At(x, y, []) == g.log;
    if a.msaaZs.Some? {
      var v, lastWrite := BlockOf(a, a.msaaZs.value, x, y), a.zsWrite.None? && a.colorWrite.None?;
      FlagMoves(v, DISABLE_COLOR, lastWrite, last);
      CoordsThen(g, a.msaaColor.Some?, x, y, StoreFullRes(FullResFlags(v, DISABLE_COLOR, lastWrite, last)));
    }
  }

  lemma DepthPartsRun(g: Gpu, a: RclArgs, x: byte, y: byte, last: bool)
    requires Ready(g, a, x, y, a.msaaColor.Some? || a.msaaZs.Some?)
    ensures Stored(g, DriveAll(g, ZsOps(a, x, y, last)), x, y, DepthParts(a))
    ensures Ready(DriveAll(g, ZsOps(a, x, y, last)), a, x, y, a.msaaColor.Some? || a.msaaZs.Some? || a.zsWrite.Some?)
  {
    hide Set, Base, TargetOf;
    assert g.log + At(x, y, []) == g.log;
    if a.zsWrite.Some? {
      var s, lastWrite, v := a.zsWrite.value, a.colorWrite.None?, Origin(a.zsWrite.value);
      SetLow(v, EOF);
      SetKeepClear(s.bits);
      CoordsThen(g, a.msaaColor.Some? || a.msaaZs.Some?, x, y,
                 StoreGeneral(if lastWrite then s.bits else Set(s.bits, DISABLE_COLOR_CLEAR),
                              if last && lastWrite then Set(v, EOF) else v));
    }
  }

  lemma TargetRun(g: Gpu, a: RclArgs, x: byte, y: byte, last: bool)
    requires Ready(g, a, x, y, a.msaaColor.Some? || a.msaaZs.Some? || a.zsWrite.Some?)
    ensures Stored(g, DriveAll(g, ColorOps(a, x, y, last)), x, y, TargetStores(a))
  {
    hide TargetOf;
    assert g.log + At(x, y, []) == g.log;
    if a.colorWrite.Some? {
      CoordsThen(g, a.msaaColor.Some? || a.msaaZs.Some? || a.zsWrite.Some?, x, y, if last then StoreMsEof else StoreMs);
    }
  }

  lemma TileRun(g: Gpu, a: RclArgs, x: byte, y: byte, first: bool, last: bool)
    requires g.waiting.None? && g.target == Some(TargetOf(a))
    ensures Stored(g, DriveAll(g, TileOps(a, x, y, first, last)), x, y, MovesOf(a, x, y))
  {
    hide LoadColorOps, LoadZsOps, EnterOps, MsaaColorOps, MsaaZsOps, ZsOps, ColorOps, TargetOf, DriveAll, ColourLoads,
         DepthLoads, ColourBlocks, DepthBlocks, DepthParts, TargetStores;
    var p, p4, p5 := LoadColorOps(a, x, y) + LoadZsOps(a, x, y) + EnterOps(a, x, y, first), MsaaColorOps(a, x, y, last),
                     MsaaZsOps(a, x, y, last);
    var p6, p7 := ZsOps(a, x, y, last), ColorOps(a, x, y, last);
    DriveAppend(g, p + p4 + p5 + p6, p7);
    DriveAppend(g, p + p4 + p5, p6);
    DriveAppend(g, p + p4, p5);
    DriveAppend(g, p, p4);
    LoadsRun(g, a, x, y, first);
    var g1 := DriveAll(g, p);
    BlocksRun(g1, a, x, y, last);
    var g2 := DriveAll(g1, p4);
    DepthBlocksRun(g2, a, x, y, last);
    var g3 := DriveAll(g2, p5);
    DepthPartsRun(g3, a, x, y, last);
    var g4 := DriveAll(g3, p6);
    TargetRun(g4, a, x, y, last);
    var m1, m2 := ColourLoads(a, x, y) + DepthLoads(a, x, y), ColourBlocks(a, x, y);
    var m3, m4 := DepthBlocks(a, x, y), DepthParts(a);
    AtJoins(x, y, g.log, m1, m2);
    AtJoins(x, y, g.log, m1 + m2, m3);
    AtJoins(x, y, g.log, m1 + m2 + m3, m4);
    AtJoins(x, y, g.log, m1 + m2 + m3 + m4, TargetStores(a));
  }

  lemma AtJoins(x: byte, y: byte, log: seq<Access>, a: seq<Move>, b: seq<Move>)
    ensures log + At(x, y, a) + At(x, y, b) == log + At(x, y, a + b)
  {
  }

  // ---- The whole list ----

  /** The transfers of the first n tiles of row yi, and of the first m rows, in visiting order. */
  function RowLog(a: RclArgs, yi: nat, n: nat): seq<Access>
    requires ValidArgs(a) && yi < YTiles(a) && n <= XTiles(a)
  {
    if n == 0 then []
    else RowLog(a, yi, n - 1) + At(TileX(a, n - 1), TileY(a, yi), MovesOf(a, TileX(a, n - 1), TileY(a, yi)))
  }

  function RowsLog(a: RclArgs, m: nat): seq<Access>
    requires ValidArgs(a) && m <= YTiles(a)
  {
    if m == 0 then [] else RowsLog(a, m - 1) + RowLog(a, m - 1, XTiles(a))
  }

  predicate Logged(g: Gpu, h: Gpu, log: seq<Access>) {
    h == g.(at := h.at, log := g.log + log)
  }

  lemma RowStep(a: RclArgs, yi: nat, n: nat)
    requires ValidArgs(a) && yi < YTiles(a) && 0 < n <= XTiles(a)
    ensures RowLog(a, yi, n) == RowLog(a, yi, n - 1)
         + At(TileX(a, n - 1), TileY(a, yi), MovesOf(a, TileX(a, n - 1), TileY(a, yi)))
    ensures RowOps(a, yi, n) == RowOps(a, yi, n - 1) + VisitOps(a, n - 1, yi)
  {
    hide MovesOf, At, TileOps;
  }

  lemma NoTiles(g: Gpu, a: RclArgs, yi: nat)
    requires ValidArgs(a) && yi < YTiles(a)
    ensures RowLog(a, yi, 0) == [] && DriveAll(g, RowOps(a, yi, 0)) == g
    ensures Logged(g, g, [])
  {
    assert g.log + [] == g.log;
  }

  lemma LoggedJoins(g: Gpu, h: Gpu, k: Gpu, a: seq<Access>, b: seq<Access>)
    requires Logged(g, h, a) && Logged(h, k, b)
    ensures Logged(g, k, a + b)
  {
    assert g.log + a + b == g.log + (a + b);
  }

  lemma {:induction false} RowRun(g: Gpu, a: RclArgs, yi: nat, n: nat)
    requires ValidArgs(a) && yi < YTiles(a) && n <= XTiles(a) && g.waiting.None? && g.target == Some(TargetOf(a))
    ensures Logged(g, DriveAll(g, RowOps(a, yi, n)), RowLog(a, yi, n))
  {
    hide TileOps, TargetOf, MovesOf, TileX, TileY, RowOps, RowLog, DriveAll, At;
    if n == 0 {
      NoTiles(g, a, yi);
    } else {
      var xi, h := n - 1, DriveAll(g, RowOps(a, yi, n - 1));
      var x, y := TileX(a, xi), TileY(a, yi);
      RowStep(a, yi, n);
      RowRun(g, a, yi, xi);
      DriveAppend(g, RowOps(a, yi, xi), VisitOps(a, xi, yi));
      TileRun(h, a, x, y, xi == 0 && yi == 0, xi == XTiles(a) - 1 && yi == YTiles(a) - 1);
      LoggedJoins(g, h, DriveAll(h, VisitOps(a, xi, yi)), RowLog(a, yi, xi), At(x, y, MovesOf(a, x, y)));
    }
  }

  lemma RowsStep(a: RclArgs, m: nat)
    requires ValidArgs(a) && 0 < m <= YTiles(a)
    ensures RowsLog(a, m) == RowsLog(a, m - 1) + RowLog(a, m - 1, XTiles(a))
    ensures RowsOps(a, m) == RowsOps(a, m - 1) + RowOps(a, m - 1, XTiles(a))
  {
    hide RowLog, RowOps;
  }

  lemma NoRows(g: Gpu, a: RclArgs)
    requires ValidArgs(a)
    ensures RowsLog(a, 0) == [] && DriveAll(g, RowsOps(a, 0)) == g
  {
  }

  lemma {:induction false} RowsRun(g: Gpu, a: RclArgs, m: nat)
    requires ValidArgs(a) && m <= YTiles(a) && g.waiting.None? && g.target == Some(TargetOf(a))
    ensures Logged(g, DriveAll(g, RowsOps(a, m)), RowsLog(a, m))
  {
    hide RowOps, RowLog, TargetOf, RowsOps, RowsLog, DriveAll;
    if m == 0 {
      NoRows(g, a);
      NoTiles(g, a, 0);
    } else {
      RowsStep(a, m);
      RowsRun(g, a, m - 1);
      DriveAppend(g, RowsOps(a, m - 1), RowOps(a, m - 1, XTiles(a)));
      var h := DriveAll(g, RowsOps(a, m - 1));
      RowRun(h, a, m - 1, XTiles(a));
      LoggedJoins(g, h, DriveAll(h, RowOps(a, m - 1, XTiles(a))), RowsLog(a, m - 1), RowLog(a, m - 1, XTiles(a)));
    }
  }

  lemma HeaderRun(a: RclArgs)
    ensures DriveAll(GPU_START, HeaderOps(a))
         == GPU_START.(target := Some(TargetOf(a)),
                       clear := if a.useClear then Some(Clear(a.clear0, a.clear1, a.clearZ, a.clearS)) else None)
  {
    hide Base, Format;
    var t := TargetOf(a);
    var config := RenderConfig(t.address, t.width, t.height, t.bits);
    if a.useClear {
      var c := ClearColors(a.clear0, a.clear1, a.clearZ, a.clearS);
      var ops := [c, TileCoords(0, 0), StoreGeneral(0, 0)];
      assert ops[1..][1..] == [StoreGeneral(0, 0)];
      var g := DriveAll(GPU_START, ops);
      DriveOne(Drive(Drive(GPU_START, c), TileCoords(0, 0)), StoreGeneral(0, 0));
      DriveAppend(GPU_START, ops, [config]);
      DriveOne(g, config);
      assert HeaderOps(a) == ops + [config];
    } else {
      DriveOne(GPU_START, config);
      assert HeaderOps(a) == [config];
    }
  }

  /**
   * The whole list configures the target, latches the clear values exactly when
   * asked to, and transfers what is meant for every tile, in visiting order.
   */
  lemma ListRun(a: RclArgs)
    requires ValidArgs(a)
    ensures var g := DriveAll(GPU_START, RclOps(a));
            && g.target == Some(TargetOf(a)) && g.waiting.None? && g.log == RowsLog(a, YTiles(a))
            && g.clear == if a.useClear then Some(Clear(a.clear0, a.clear1, a.clearZ, a.clearS)) else None
  {
    hide DriveAll, RowsOps, HeaderOps, RowsLog, TargetOf;
    HeaderRun(a);
    DriveAppend(GPU_START, HeaderOps(a), RowsOps(a, YTiles(a)));
    RowsRun(DriveAll(GPU_START, HeaderOps(a)), a, YTiles(a));
    assert [] + RowsLog(a, YTiles(a)) == RowsLog(a, YTiles(a));
  }

  // ---- Tile by tile ----

  /** The transfers of a log made under a tile's coordinates. */
  function OfTile(log: seq<Access>, tile: Option<(byte, byte)>): seq<Move> {
    if log == [] then []
    else
      var last := log[|log| - 1];
      OfTile(log[..|log| - 1], tile) + if last.tile == tile then [last.move] else []
  }

  lemma {:induction false} OfTileAppend(log: seq<Access>, more: seq<Access>, tile: Option<(byte, byte)>)
    ensures OfTile(log + more, tile) == OfTile(log, tile) + OfTile(more, tile)
    decreases |more|
  {
    if more == [] {
      assert log + more == log;
    } else {
      var front := more[..|more| - 1];
      OfTileAppend(log, front, tile);
      assert (log + more)[..|log + more| - 1] == log + front;
    }
  }

  lemma {:induction false} OfTileAt(x: byte, y: byte, moves: seq<Move>, tile: Option<(byte, byte)>)
    ensures OfTile(At(x, y, moves), tile) == if tile == Some((x, y)) then moves else []
    decreases |moves|
  {
    if moves != [] {
      var front := moves[..|moves| - 1];
      OfTileAt(x, y, front, tile);
      assert At(x, y, moves)[..|moves| - 1] == At(x, y, front);
    }
  }

  lemma NoneOfTile(tile: Option<(byte, byte)>)
    ensures OfTile([], tile) == []
  {
  }

  predicate InRow(a: RclArgs, yi: nat, n: nat, tile: Option<(byte, byte)>): (r: bool)
    requires ValidArgs(a) && yi < YTiles(a) && n <= XTiles(a)
    ensures r ==> tile.Some?
  {
    tile.Some? && tile.value.1 == TileY(a, yi) && exists xi: nat :: xi < n && TileX(a, xi) == tile.value.0
  }

  /** Two pieces of which at most one is there. */
  lemma OneOf(a: seq<Move>, b: seq<Move>, first: bool, second: bool, moves: seq<Move>)
    requires a == (if first then moves else []) && b == (if second then moves else []) && !(first && second)
    ensures a + b == if first || second then moves else []
  {
  }

  /** One more tile of a row, which was not among those before. */
  lemma InRowStep(a: RclArgs, yi: nat, n: nat, tile: Option<(byte, byte)>)
    requires ValidArgs(a) && yi < YTiles(a) && 0 < n <= XTiles(a)
    ensures InRow(a, yi, n, tile) <==> InRow(a, yi, n - 1, tile) || tile == Some((TileX(a, n - 1), TileY(a, yi)))
    ensures !(InRow(a, yi, n - 1, tile) && tile == Some((TileX(a, n - 1), TileY(a, yi))))
  {
  }

  lemma {:induction false} OfRow(a: RclArgs, yi: nat, n: nat, tile: Option<(byte, byte)>)
    requires ValidArgs(a) && yi < YTiles(a) && n <= XTiles(a)
    ensures OfTile(RowLog(a, yi, n), tile)
         == if InRow(a, yi, n, tile) then MovesOf(a, tile.value.0, tile.value.1) else []
  {
    if n == 0 {
      NoneOfTile(tile);
    } else {
      hide MovesOf, At, OfTile, TileX, TileY, InRow;
      var x, y := TileX(a, n - 1), TileY(a, yi);
      OfRow(a, yi, n - 1, tile);
      OfTileAppend(RowLog(a, yi, n - 1), At(x, y, MovesOf(a, x, y)), tile);
      OfTileAt(x, y, MovesOf(a, x, y), tile);
      InRowStep(a, yi, n, tile);
      OneOf(OfTile(RowLog(a, yi, n - 1), tile), OfTile(At(x, y, MovesOf(a, x, y)), tile), InRow(a, yi, n - 1, tile),
            tile == Some((x, y)), if tile.Some? then MovesOf(a, tile.value.0, tile.value.1) else []);
    }
  }

  predicate InRows(a: RclArgs, m: nat, tile: Option<(byte, byte)>): (r: bool)
    requires ValidArgs(a) && m <= YTiles(a)
    ensures r ==> tile.Some?
  {
    && tile.Some? && a.minX <= tile.value.0 <= a.maxX
    && exists yi: nat :: yi < m && TileY(a, yi) == tile.value.1
  }

  lemma OutsideNone(a: RclArgs, tile: Option<(byte, byte)>)
    requires ValidArgs(a)
    ensures !InRows(a, 0, tile)
  {
  }

  lemma WholeRow(a: RclArgs, yi: nat, tile: Option<(byte, byte)>)
    requires ValidArgs(a) && yi < YTiles(a)
    ensures InRow(a, yi, XTiles(a), tile)
       <==> tile.Some? && tile.value.1 == TileY(a, yi) && a.minX <= tile.value.0 <= a.maxX
  {
    if tile.Some? && a.minX <= tile.value.0 <= a.maxX {
      assert TileX(a, if PositiveX(a) then tile.value.0 - a.minX else a.maxX - tile.value.0) == tile.value.0;
    }
  }

  lemma InRowsStep(a: RclArgs, m: nat, tile: Option<(byte, byte)>)
    requires ValidArgs(a) && 0 < m <= YTiles(a)
    ensures InRows(a, m, tile) <==> InRows(a, m - 1, tile) || InRow(a, m - 1, XTiles(a), tile)
    ensures !(InRows(a, m - 1, tile) && InRow(a, m - 1, XTiles(a), tile))
  {
    hide InRow;
    WholeRow(a, m - 1, tile);
    assert TileY(a, m - 1) == TileY(a, m - 1);
  }

  lemma {:induction false} OfRows(a: RclArgs, m: nat, tile: Option<(byte, byte)>)
    requires ValidArgs(a) && m <= YTiles(a)
    ensures OfTile(RowsLog(a, m), tile) == if InRows(a, m, tile) then MovesOf(a, tile.value.0, tile.value.1) else []
  {
    hide MovesOf, RowLog, RowsLog, InRow, InRows, OfTile, DriveAll, RowsOps, RowOps;
    if m == 0 {
      NoRows(GPU_START, a);
      NoneOfTile(tile);
      assert !InRows(a, 0, tile) by {
        OutsideNone(a, tile);
      }
    } else {
      RowsStep(a, m);
      OfRows(a, m - 1, tile);
      OfTileAppend(RowsLog(a, m - 1), RowLog(a, m - 1, XTiles(a)), tile);
      OfRow(a, m - 1, XTiles(a), tile);
      InRowsStep(a, m, tile);
      OneOf(OfTile(RowsLog(a, m - 1), tile), OfTile(RowLog(a, m - 1, XTiles(a)), tile), InRows(a, m - 1, tile),
            InRow(a, m - 1, XTiles(a), tile), if tile.Some? then MovesOf(a, tile.value.0, tile.value.1) else []);
    }
  }

  /**
   * Under the coordinates of each tile of the rectangle exactly what is meant for
   * it is transferred, in order; under any others, or under none, nothing is.
   */
  lemma TileTransfers(a: RclArgs, tile: Option<(byte, byte)>)
    requires ValidArgs(a)
    ensures OfTile(DriveAll(GPU_START, RclOps(a)).log, tile)
         == if tile.Some? && a.minX <= tile.value.0 <= a.maxX && a.minY <= tile.value.1 <= a.maxY
            then MovesOf(a, tile.value.0, tile.value.1) else []
  {
    hide DriveAll, RclOps, RowsLog, MovesOf;
    ListRun(a);
    OfRows(a, YTiles(a), tile);
    if tile.Some? && a.minY <= tile.value.1 <= a.maxY {
      assert TileY(a, if PositiveY(a) then tile.value.1 - a.minY else a.maxY - tile.value.1) == tile.value.1;
    }
  }
}
