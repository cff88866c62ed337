/**
 * process_bin_cl: the rewrite of a binner command list.
 *
 * The specification reads the list as packets and steps a BinState; the class
 * BinExec at the end is the byte-level loop, proved to compute the same state
 * and to leave exactly the encoded packets in the output buffer.
 */
module BinList {
  import opened Bytes
  import opened Packets
  import opened Buffers

  // ---- Fixed inputs and running state ----

  datatype BinEnv = BinEnv(
    handles: Handles,
    scratchBus: u32, scratchSize: nat,
    tileAllocBus: u32, tileAllocSize: u32, tileStateBus: u32,
    recBus: u32, slotsMax: nat)

  datatype BinState = BinState(
    hindex0: u32, bo0: u32, hindex1: u32, bo1: u32,
    lows: seq<u32>, maxes: seq<u32>, recPos: u32,
    scratch: seq<byte>, used: nat,
    tilesX: u32, tilesY: u32,
    out: seq<Packet>)

  predicate ValidEnv(env: BinEnv) {
    && ValidHandles(env.handles)
    && env.scratchSize % 4 == 0 && env.scratchSize < 0x1_0000_0000
    && env.recBus % 16 == 0
  }

  predicate ValidState(env: BinEnv, st: BinState) {
    && |st.scratch| == env.scratchSize && st.used <= env.scratchSize && st.used % 4 == 0
    && st.recPos % 16 == 0
    && |st.lows| == |st.maxes|
    && (forall low <- st.lows :: low < 16)
    && (forall p <- st.out :: Sized(p) && !p.GemHandles?)
  }

  // ---- Pieces of packets ----

  /** Attribute count held in the low bits of a GL_SHADER_STATE address; 0 stands for 8. */
  function AttrCount(low: u32): (n: nat)
    ensures 1 <= n <= 8
  {
    if low % 8 == 0 then 8 else low % 8
  }

  /** Bytes of the shader record those flags announce. */
  function RecordSize(low: u32): (n: nat)
    ensures 36 <= n <= 132
  {
    if low / 8 % 2 == 1 then 100 + AttrCount(low) * 4 else 36 + AttrCount(low) * 8
  }

  predicate IsU16(mode: byte) {
    mode / 16 % 2 == 1
  }

  /** (flags & ~(3 << 3 | 3 << 5)) | auto-init | 128-byte blocks | 32-byte initial blocks. */
  function PatchFlags(flags: byte): (r: byte)
    ensures r % 4 == flags % 4 && r / 4 % 2 == 1 && r / 8 % 4 == 0 && r / 32 % 4 == 2 && r / 128 == flags / 128
  {
    FlagBits(flags);
    BitOr(BitAnd(flags, 0xFF - 0x78), 0x44)
  }

  /** Bit 2 is set, bits 3 and 4 are clear, bits 5 and 6 hold 2, the others are as they were. */
  lemma FlagBits(flags: byte)
    ensures var r := BitOr(BitAnd(flags, 0xFF - 0x78), 0x44);
            && 0 <= r < 0x100
            && r % 4 == flags % 4 && r / 4 % 2 == 1 && r / 8 % 4 == 0 && r / 32 % 4 == 2 && r / 128 == flags / 128
  {
    hide BitAnd, BitOr;
    var a, b, c, m, t := Digits(flags);
    KeptBits(a, b, c, m, t);
    SetBits(a, b, c, t);
    FieldsOf(a, b, t);
    DivUnique(flags, c + 2 * (m + 16 * t), 4, a + 2 * b);
    DivUnique(flags, t, 128, a + 2 * (b + 2 * (c + 2 * m)));
  }

  lemma Digits(f: byte) returns (a: nat, b: nat, c: nat, m: nat, t: nat)
    ensures a < 2 && b < 2 && c < 2 && m < 16 && t < 2
    ensures f == a + 2 * (b + 2 * (c + 2 * (m + 16 * t)))
  {
    a, b := f % 2, f / 2 % 2;
    c, m := f / 2 / 2 % 2, f / 2 / 2 / 2 % 16;
    t := f / 2 / 2 / 2 / 16;
  }

  lemma FieldsOf(a: nat, b: nat, t: nat)
    requires a < 2 && b < 2 && t < 2
    ensures var r := a + 2 * b + 68 + 128 * t;
            r % 4 == a + 2 * b && r / 4 % 2 == 1 && r / 8 % 4 == 0 && r / 32 % 4 == 2 && r / 128 == t
  {
  }

  /** Bits 0, 1, 2 and 7 are kept. */
  lemma KeptBits(a: nat, b: nat, c: nat, m: nat, t: nat)
    requires a < 2 && b < 2 && c < 2 && m < 16 && t < 2
    ensures BitAnd(a + 2 * (b + 2 * (c + 2 * (m + 16 * t))), 0x87) == a + 2 * (b + 2 * (c + 32 * t))
  {
    hide BitAnd;
    AndBit(b + 2 * (c + 2 * (m + 16 * t)), a, 0x43, 1);
    AndBit(c + 2 * (m + 16 * t), b, 0x21, 1);
    AndBit(m + 16 * t, c, 0x10, 1);
    ClearedBits(m, t);
  }

  lemma ClearedBits(m: nat, t: nat)
    requires m < 16 && t < 2
    ensures BitAnd(m + 16 * t, 0x10) == 16 * t
  {
    hide BitAnd;
    var m1 := m / 2;
    var m2 := m1 / 2;
    AndBit(m1 + 8 * t, m % 2, 8, 0);
    AndBit(m2 + 4 * t, m1 % 2, 4, 0);
    AndBit(m2 / 2 + 2 * t, m2 % 2, 2, 0);
    AndBit(t, m2 / 2, 1, 0);
    AndBit(0, t, 0, 1);
    NoBits(0);
  }

  /** Bits 2 and 6 are set. */
  lemma SetBits(a: nat, b: nat, c: nat, t: nat)
    requires a < 2 && b < 2 && c < 2 && t < 2
    ensures BitOr(a + 2 * (b + 2 * (c + 32 * t)), 0x44) == a + 2 * (b + 2 * (1 + 2 * (8 + 16 * t)))
  {
    hide BitOr;
    OrBit(b + 2 * (c + 32 * t), a, 0x22, 0);
    OrBit(c + 32 * t, b, 0x11, 0);
    OrBit(16 * t, c, 8, 1);
    OrBit(8 * t, 0, 4, 0);
    OrBit(4 * t, 0, 2, 0);
    OrBit(2 * t, 0, 1, 0);
    OrBit(t, 0, 0, 1);
    NoBits(t);
  }

  lemma AndBit(x: nat, c: nat, y: nat, d: nat)
    requires c < 2 && d < 2
    ensures BitAnd(2 * x + c, 2 * y + d) == 2 * BitAnd(x, y) + if d == 1 then c else 0
  {
  }

  lemma OrBit(x: nat, c: nat, y: nat, d: nat)
    requires c < 2 && d < 2
    ensures BitOr(2 * x + c, 2 * y + d) == 2 * BitOr(x, y) + if d == 1 then 1 else c
  {
  }

  lemma NoBits(x: nat)
    ensures BitAnd(x, 0) == 0 && BitOr(x, 0) == x
  {
  }

  function SwapPairs(s: seq<byte>): (t: seq<byte>)
    requires |s| % 2 == 0
    ensures |t| == |s|
  {
    seq(|s|, i requires 0 <= i < |s| => if i % 2 == 0 then s[i + 1] else s[i - 1])
  }

  /** The largest of n big-endian 16-bit indices starting at byte at, 0 when there is none. */
  function MaxIndex(s: seq<byte>, at: nat, n: nat): u32
    requires at + 2 * n <= |s|
  {
    if n == 0 then 0 else Max(MaxIndex(s, at, n - 1), Be16(s, at + 2 * (n - 1)))
  }

  function Be16(s: seq<byte>, at: nat): u32
    requires at + 1 < |s|
  {
    (s[at] as int) * 0x100 + (s[at + 1] as int)
  }

  function Le16(s: seq<byte>, at: nat): u32
    requires at + 1 < |s|
  {
    (s[at] as int) + (s[at + 1] as int) * 0x100
  }

  function ArrayMax(count: u32, first: u32): u32 {
    if count != 0 then Wrap(first + count - 1) else first
  }

  function NoteMax(maxes: seq<u32>, maxIndex: u32): (r: seq<u32>)
    ensures |r| == |maxes|
  {
    if maxes != [] && maxIndex > maxes[|maxes| - 1] then maxes[|maxes| - 1 := maxIndex] else maxes
  }

  // ---- One packet ----

  /** Why a 16-bit index range is taken: it resolves, lies in the buffer and fits the scratch. */
  predicate IndexRangeOk(env: BinEnv, st: BinState, count: u32, offset: u32)
    requires ValidEnv(env)
  {
    && count <= 0x7FFF_FFFF
    && Resolve(env.handles, st.hindex0).Some?
    && offset + 2 * count <= |Resolve(env.handles, st.hindex0).value.mem|
    && st.used + 2 * count <= env.scratchSize
  }

  /** Scratch offset after a range: ranges stay word-aligned. */
  function AfterRange(used: nat, bytes: nat): (r: nat)
    requires used % 4 == 0
    ensures r == used + RoundUp(bytes, 4) && r % 4 == 0
  {
    RoundUp(used + bytes, 4)
  }

  /** Where the indices of a draw end up: scratch contents and use, bus address, largest index. */
  datatype Fetched = Fetched(scratch: seq<byte>, used: nat, bus: u32, maxIndex: u32)

  /** A range of count indices, serialised into the scratch behind the used bytes. */
  function CopyRange(scratch: seq<byte>, used: nat, bus: u32, mem: seq<byte>, offset: nat, count: nat): (r: Fetched)
    requires used % 4 == 0 && |scratch| % 4 == 0 && offset + 2 * count <= |mem| && used + 2 * count <= |scratch|
    ensures |r.scratch| == |scratch| && r.used <= |scratch| && r.used % 4 == 0
  {
    RoundUpWithin4(used, 2 * count, |scratch|);
    Fetched(Splice(scratch, used, SwapPairs(mem[offset..offset + 2 * count])), AfterRange(used, 2 * count),
            Wrap(bus + used), MaxIndex(mem, offset, count))
  }

  function Fetch(env: BinEnv, st: BinState, p: Packet): (r: Option<Fetched>)
    requires ValidEnv(env) && ValidState(env, st) && p.Indexed?
    ensures r.Some? ==> |r.value.scratch| == env.scratchSize && r.value.used <= env.scratchSize && r.value.used % 4 == 0
  {
    if !IsU16(p.mode) then Some(Fetched(st.scratch, st.used, Wrap(st.bo0 + p.offset), p.maxIndex))
    else if !IndexRangeOk(env, st, p.count, p.offset) then None
    else
      var mem := Resolve(env.handles, st.hindex0).value.mem;
      Some(CopyRange(st.scratch, st.used, env.scratchBus, mem, p.offset, p.count))
  }

  function StepIndexed(env: BinEnv, st: BinState, p: Packet): (r: Option<BinState>)
    requires ValidEnv(env) && ValidState(env, st) && p.Indexed?
    ensures r.Some? ==> ValidState(env, r.value)
  {
    match Fetch(env, st, p)
    case None => None
    case Some(f) =>
      Some(st.(maxes := NoteMax(st.maxes, f.maxIndex), scratch := f.scratch, used := f.used,
               out := st.out + [p.(offset := f.bus, maxIndex := f.maxIndex)]))
  }

  /** The record address with the packet's flags or-ed in. */
  function PatchedAddress(recPos: u32, low: u32): (r: u32)
    requires recPos % 16 == 0 && low < 16
    ensures r == recPos + low && r % 16 == low
  {
    OrLow4(recPos, low);
    BitOr(recPos, low)
  }

  function NextRecord(recPos: u32, low: u32): (r: u32)
    requires recPos % 16 == 0
    ensures r % 16 == 0
  {
    Wrap(recPos + RoundUp(RecordSize(low), 16))
  }

  function StepShaderState(env: BinEnv, st: BinState, address: u32): (r: Option<BinState>)
    requires ValidEnv(env) && ValidState(env, st)
    ensures r.Some? ==> ValidState(env, r.value)
  {
    var low := address % 16;
    if |st.lows| >= env.slotsMax then None
    else
      Some(st.(lows := st.lows + [low], maxes := st.maxes + [0], recPos := NextRecord(st.recPos, low),
               out := st.out + [ShaderState(PatchedAddress(st.recPos, low))]))
  }

  function Step(env: BinEnv, st: BinState, p: Packet): (r: Option<BinState>)
    requires ValidEnv(env) && ValidState(env, st) && Sized(p)
    ensures r.Some? ==> ValidState(env, r.value)
  {
    match p
    case GemHandles(h0, h1) =>
      var s := st.(hindex0 := h0, bo0 := BusAddr(env.handles, h0));
      Some(if h1 != 0 then s.(hindex1 := h1, bo1 := BusAddr(env.handles, h1)) else s)
    case ShaderState(address) => StepShaderState(env, st, address)
    case Indexed(_, _, _, _) => StepIndexed(env, st, p)
    case ArrayPrim(_, count, first) =>
      Some(st.(maxes := NoteMax(st.maxes, ArrayMax(count, first)), out := st.out + [p]))
    case BinConfig(_, _, _, tilesX, tilesY, flags) =>
      Some(st.(tilesX := tilesX, tilesY := tilesY,
               out := st.out + [BinConfig(env.tileAllocBus, env.tileAllocSize, env.tileStateBus,
                                          tilesX, tilesY, PatchFlags(flags))]))
    case _ => Some(st.(out := st.out + [p]))
  }

  // ---- A whole list ----

  /** None exactly where process_bin_cl gives up on the list. */
  function Compile(env: BinEnv, st: BinState, s: seq<byte>): (r: Option<BinState>)
    requires ValidEnv(env) && ValidState(env, st)
    ensures r.Some? ==> ValidState(env, r.value)
    decreases |s|
  {
    if s == [] then Some(st)
    else
      var size := PacketSize(s[0]);
      if size == 0 || size > |s| then None
      else
        match Step(env, st, Decode(true, s[..size]))
        case None => None
        case Some(st') => Compile(env, st', s[size..])
  }

  /** The list a submission without a binner list gets: a configuration and nothing drawn. */
  function RenderOnlyList(env: BinEnv, tilesX: u32, tilesY: u32): seq<Packet> {
    [BinConfig(env.tileAllocBus, env.tileAllocSize, env.tileStateBus, tilesX % 0x100, tilesY % 0x100, 0x44),
     Plain(START_TILE_BINNING, []), Plain(INCREMENT_SEMAPHORE, []), Plain(FLUSH, [])]
  }

  /** process_bin_cl: a list that comes out empty counts as refused, an empty list gets the minimal one. */
  function ProcessedList(env: BinEnv, st: BinState, s: seq<byte>): (r: Option<BinState>)
    requires ValidEnv(env) && ValidState(env, st)
    ensures r.Some? ==> ValidState(env, r.value)
  {
    if s == [] then Some(st.(out := RenderOnlyList(env, st.tilesX, st.tilesY)))
    else
      match Compile(env, st, s)
      case None => None
      case Some(fin) => if fin.out == [] then None else Some(fin)
  }

  function InitState(env: BinEnv, tilesX: u32, tilesY: u32, scratch: seq<byte>): (st: BinState)
    requires ValidEnv(env) && |scratch| == env.scratchSize
    ensures ValidState(env, st)
  {
    BinState(0, 0, 0, 0, [], [], env.recBus, scratch, 0, tilesX, tilesY, [])
  }
}
