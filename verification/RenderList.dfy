/**
 * build_rcl: the render control list as packets, and what the V3D makes of it.
 */
module RenderList {
  import opened Bytes
  import opened Packets

  type u16 = x: int | 0 <= x < 0x1_0000

  /** A surface whose buffer has been resolved. */
  datatype Surface = Surface(bus: u32, offset: u32, bits: u16, fullRes: bool)

  datatype RclArgs = RclArgs(
    minX: byte, minY: byte, maxX: byte, maxY: byte,
    width: u16, height: u16,
    useClear: bool, clear0: u32, clear1: u32, clearZ: u32, clearS: byte,
    fixedOrder: bool, increasingX: bool, increasingY: bool,
    colorRead: Option<Surface>, colorWrite: Option<Surface>, colorWriteBits: u16,
    zsRead: Option<Surface>, zsWrite: Option<Surface>,
    msaaColor: Option<Surface>, msaaZs: Option<Surface>,
    tileAllocBus: u32, binTilesX: u32)

  /** The tile rectangle is not empty and its sides fit the byte counters. */
  predicate ValidArgs(a: RclArgs) {
    a.minX <= a.maxX && a.minY <= a.maxY && a.maxX - a.minX + 1 <= 255 && a.maxY - a.minY + 1 <= 255
  }

  datatype RclOp =
    | ClearColors(clear0: u32, clear1: u32, clearZ: u32, clearS: byte)
    | TileCoords(x: byte, y: byte)
    | StoreGeneral(bits: u16, address: u32)
    | LoadGeneral(bits: u16, address: u32)
    | LoadFullRes(address: u32)
    | StoreFullRes(address: u32)
    | RenderConfig(address: u32, width: u16, height: u16, bits: u16)
    | WaitSemaphore
    | Branch(address: u32)
    | StoreMs
    | StoreMsEof

  // ---- Flag bits or-ed into addresses ----

  const EOF: u32 := 8
  const DISABLE_CLEAR_ALL: u32 := 4
  const DISABLE_ZS: u32 := 2
  const DISABLE_COLOR: u32 := 1
  const DISABLE_COLOR_CLEAR: u32 := 0x2000
  const STORE_NONE: u16 := 0xE000

  predicate BitSet(v: u32, b: u32)
    requires b in {1, 2, 4, 8, 0x2000}
  {
    v / b % 2 == 1
  }

  /** v | b for a single bit. */
  function Set(v: u32, b: u32): (r: u32)
    requires b in {1, 2, 4, 8, 0x2000}
    ensures r == v || r == v + b
    ensures v < 0x1_0000 ==> r < 0x1_0000
  {
    if BitSet(v, b) then v else v + b
  }

  // ---- Tiles ----

  function XTiles(a: RclArgs): nat
    requires ValidArgs(a)
  {
    a.maxX - a.minX + 1
  }

  function YTiles(a: RclArgs): nat
    requires ValidArgs(a)
  {
    a.maxY - a.minY + 1
  }

  predicate PositiveX(a: RclArgs) {
    a.fixedOrder ==> a.increasingX
  }

  predicate PositiveY(a: RclArgs) {
    a.fixedOrder ==> a.increasingY
  }

  function TileX(a: RclArgs, xi: nat): byte
    requires ValidArgs(a) && xi < XTiles(a)
  {
    if PositiveX(a) then a.minX + xi else a.maxX - xi
  }

  function TileY(a: RclArgs, yi: nat): byte
    requires ValidArgs(a) && yi < YTiles(a)
  {
    if PositiveY(a) then a.minY + yi else a.maxY - yi
  }

  /** Where the binner put the list of a tile. */
  function SublistAddress(a: RclArgs, x: byte, y: byte): u32 {
    Wrap(a.tileAllocBus + (y * a.binTilesX + x) * 32)
  }

  /** The 16 KiB block of a tile in an unresolved multisample surface. */
  function FullResAddress(a: RclArgs, s: Surface, x: byte, y: byte): u32 {
    Wrap(s.bus + s.offset + 16384 * ((a.width + 63) / 64 * y + x))
  }

  // ---- The packets of one tile ----

  function LoadOp(a: RclArgs, s: Surface, x: byte, y: byte, disable: u32): RclOp
    requires disable in {1, 2}
  {
    if s.fullRes then LoadFullRes(Set(FullResAddress(a, s, x, y), disable))
    else LoadGeneral(s.bits, Wrap(s.bus + s.offset))
  }

  function LoadColorOps(a: RclArgs, x: byte, y: byte): seq<RclOp> {
    match a.colorRead
    case None => []
    case Some(s) => [LoadOp(a, s, x, y, DISABLE_ZS)]
  }

  function LoadZsOps(a: RclArgs, x: byte, y: byte): seq<RclOp> {
    match a.zsRead
    case None => []
    case Some(s) =>
      (if a.colorRead.Some? then [TileCoords(x, y), StoreGeneral(STORE_NONE, 0)] else [])
      + [LoadOp(a, s, x, y, DISABLE_COLOR)]
  }

  function EnterOps(a: RclArgs, x: byte, y: byte, first: bool): seq<RclOp> {
    [TileCoords(x, y)] + (if first then [WaitSemaphore] else []) + [Branch(SublistAddress(a, x, y))]
  }

  /** Clearing stays off until the last write of the tile; the last write of the last tile ends the frame. */
  function FullResFlags(address: u32, disable: u32, lastWrite: bool, last: bool): u32
    requires disable in {1, 2}
  {
    var v := Set(address, disable);
    if !lastWrite then Set(v, DISABLE_CLEAR_ALL) else if last then Set(v, EOF) else v
  }

  function MsaaColorOps(a: RclArgs, x: byte, y: byte, last: bool): seq<RclOp> {
    match a.msaaColor
    case None => []
    case Some(s) =>
      var lastWrite := a.msaaZs.None? && a.zsWrite.None? && a.colorWrite.None?;
      [StoreFullRes(FullResFlags(FullResAddress(a, s, x, y), DISABLE_ZS, lastWrite, last))]
  }

  function MsaaZsOps(a: RclArgs, x: byte, y: byte, last: bool): seq<RclOp> {
    match a.msaaZs
    case None => []
    case Some(s) =>
      var lastWrite := a.zsWrite.None? && a.colorWrite.None?;
      (if a.msaaColor.Some? then [TileCoords(x, y)] else [])
      + [StoreFullRes(FullResFlags(FullResAddress(a, s, x, y), DISABLE_COLOR, lastWrite, last))]
  }

  function ZsOps(a: RclArgs, x: byte, y: byte, last: bool): seq<RclOp> {
    match a.zsWrite
    case None => []
    case Some(s) =>
      var lastWrite := a.colorWrite.None?;
      var address := Wrap(s.bus + s.offset);
      (if a.msaaColor.Some? || a.msaaZs.Some? then [TileCoords(x, y)] else [])
      + [StoreGeneral(if lastWrite then s.bits else Set(s.bits, DISABLE_COLOR_CLEAR),
                      if last && lastWrite then Set(address, EOF) else address)]
  }

  function ColorOps(a: RclArgs, x: byte, y: byte, last: bool): seq<RclOp> {
    match a.colorWrite
    case None => []
    case Some(_) =>
      (if a.msaaColor.Some? || a.msaaZs.Some? || a.zsWrite.Some? then [TileCoords(x, y)] else [])
      + [if last then StoreMsEof else StoreMs]
  }

  function TileOps(a: RclArgs, x: byte, y: byte, first: bool, last: bool): seq<RclOp> {
    LoadColorOps(a, x, y) + LoadZsOps(a, x, y) + EnterOps(a, x, y, first)
    + MsaaColorOps(a, x, y, last) + MsaaZsOps(a, x, y, last) + ZsOps(a, x, y, last) + ColorOps(a, x, y, last)
  }

  // ---- The list ----

  function HeaderOps(a: RclArgs): seq<RclOp> {
    (if a.useClear then
       [ClearColors(a.clear0, a.clear1, a.clearZ, a.clearS), TileCoords(0, 0), StoreGeneral(0, 0)]
     else [])
    + [RenderConfig(if a.colorWrite.Some? then Wrap(a.colorWrite.value.bus + a.colorWrite.value.offset) else 0,
                    a.width, a.height, a.colorWriteBits)]
  }

  /** The packets of tile (xi, yi) in visiting order. */
  function VisitOps(a: RclArgs, xi: nat, yi: nat): seq<RclOp>
    requires ValidArgs(a) && xi < XTiles(a) && yi < YTiles(a)
  {
    TileOps(a, TileX(a, xi), TileY(a, yi), xi == 0 && yi == 0, xi == XTiles(a) - 1 && yi == YTiles(a) - 1)
  }

  /** The first n tiles of row yi. */
  function RowOps(a: RclArgs, yi: nat, n: nat): seq<RclOp>
    requires ValidArgs(a) && yi < YTiles(a) && n <= XTiles(a)
  {
    if n == 0 then [] else RowOps(a, yi, n - 1) + VisitOps(a, n - 1, yi)
  }

  function RowsOps(a: RclArgs, m: nat): seq<RclOp>
    requires ValidArgs(a) && m <= YTiles(a)
  {
    if m == 0 then [] else RowsOps(a, m - 1) + RowOps(a, m - 1, XTiles(a))
  }

  function RclOps(a: RclArgs): seq<RclOp>
    requires ValidArgs(a)
  {
    HeaderOps(a) + RowsOps(a, YTiles(a))
  }

  // ---- Bytes ----

  function Le16Bytes(v: u16): (s: seq<byte>)
    ensures |s| == 2
  {
    [v % 0x100, v / 0x100]
  }

  function EncodeOp(op: RclOp): (s: seq<byte>)
    ensures s != [] && |s| == PacketSize(s[0]) == OpSize(op)
  {
    match op
    case ClearColors(c0, c1, z, st) => [114] + LeBytes(c0) + LeBytes(c1) + LeBytes(z) + [st]
    case TileCoords(x, y) => [115, x, y]
    case StoreGeneral(bits, address) => [28] + Le16Bytes(bits) + LeBytes(address)
    case LoadGeneral(bits, address) => [29] + Le16Bytes(bits) + LeBytes(address)
    case LoadFullRes(address) => [27] + LeBytes(address)
    case StoreFullRes(address) => [26] + LeBytes(address)
    case RenderConfig(address, width, height, bits) =>
      [113] + LeBytes(address) + Le16Bytes(width) + Le16Bytes(height) + Le16Bytes(bits)
    case WaitSemaphore => [8]
    case Branch(address) => [17] + LeBytes(address)
    case StoreMs => [24]
    case StoreMsEof => [25]
  }

  function OpSize(op: RclOp): nat {
    match op
    case ClearColors(_, _, _, _) => 14
    case TileCoords(_, _) => 3
    case StoreGeneral(_, _) => 7
    case LoadGeneral(_, _) => 7
    case LoadFullRes(_) => 5
    case StoreFullRes(_) => 5
    case RenderConfig(_, _, _, _) => 11
    case WaitSemaphore => 1
    case Branch(_) => 5
    case StoreMs => 1
    case StoreMsEof => 1
  }

  function EncodeOps(ops: seq<RclOp>): seq<byte> {
    if ops == [] then [] else EncodeOps(ops[..|ops| - 1]) + EncodeOp(ops[|ops| - 1])
  }
}
