/**
 * The command-list packets of the V3D binner and their two readings.
 *
 * Mesa hands the driver some fields in host (big-endian) order; the V3D reads
 * every field little-endian. Decode takes the reading as a parameter, so the
 * same fields can be compared across the rewrite.
 */
module Packets {
  import opened Bytes

  const FLUSH: byte := 4
  const START_TILE_BINNING: byte := 6
  const INCREMENT_SEMAPHORE: byte := 7
  const GL_INDEXED_PRIMITIVE: byte := 32
  const GL_ARRAY_PRIMITIVE: byte := 33
  const GL_SHADER_STATE: byte := 64
  const FLAT_SHADE_FLAGS: byte := 97
  const POINT_SIZE: byte := 98
  const LINE_WIDTH: byte := 99
  const Z_CLIPPING: byte := 104
  const CLIPPER_XY_SCALING: byte := 105
  const CLIPPER_Z_SCALING: byte := 106
  const TILE_BINNING_MODE_CONFIG: byte := 112
  const GEM_HANDLES: byte := 254

  /** vc4_packet_sizes: bytes including the opcode, 0 for an unknown opcode. */
  function PacketSize(cmd: byte): nat {
    if cmd in {0, 1, 4, 5, 6, 7, 8, 24, 25, 48, 49} then 1
    else if cmd == 56 then 2
    else if cmd in {100, 115} then 3
    else if cmd == 96 then 4
    else if cmd in {16, 17, 26, 27, 64, 65, 66, 97, 98, 99, 101, 103} then 5
    else if cmd in {28, 29} then 7
    else if cmd in {102, 104, 105, 106, 254} then 9
    else if cmd == 33 then 10
    else if cmd == 113 then 11
    else if cmd in {32, 114} then 14
    else if cmd == 112 then 16
    else 0
  }

  datatype Packet =
    | GemHandles(hindex0: u32, hindex1: u32)
    | ShaderState(address: u32)
    | Indexed(mode: byte, count: u32, offset: u32, maxIndex: u32)
    | ArrayPrim(mode: byte, count: u32, first: u32)
    | Word1(cmd: byte, value: u32)
    | Word2(cmd: byte, value0: u32, value1: u32)
    | BinConfig(allocAddr: u32, allocSize: u32, stateAddr: u32, tilesX: byte, tilesY: byte, flags: byte)
    | Plain(cmd: byte, payload: seq<byte>)

  predicate IsWord1(cmd: byte) {
    cmd in {FLAT_SHADE_FLAGS, POINT_SIZE, LINE_WIDTH}
  }

  predicate IsWord2(cmd: byte) {
    cmd in {Z_CLIPPING, CLIPPER_XY_SCALING, CLIPPER_Z_SCALING}
  }

  predicate IsPlain(cmd: byte) {
    && PacketSize(cmd) != 0 && !IsWord1(cmd) && !IsWord2(cmd)
    && cmd !in {GEM_HANDLES, GL_SHADER_STATE, GL_INDEXED_PRIMITIVE, GL_ARRAY_PRIMITIVE, TILE_BINNING_MODE_CONFIG}
  }

  /** A word of the packet: host order reads big-endian, the V3D little-endian. */
  function Word(hostOrder: bool, s: seq<byte>, i: nat): u32
    requires i + 4 <= |s|
  {
    if hostOrder then ReadBe(s, i) else ReadLe(s, i)
  }

  /** s holds exactly one packet. Addresses in real V3D fields are little-endian in both readings. */
  function Decode(hostOrder: bool, s: seq<byte>): (p: Packet)
    requires s != [] && |s| == PacketSize(s[0])
    ensures Sized(p) && SizeOf(p) == |s|
  {
    var cmd := s[0];
    if cmd == GEM_HANDLES then GemHandles(Word(hostOrder, s, 1), Word(hostOrder, s, 5))
    else if cmd == GL_SHADER_STATE then ShaderState(ReadLe(s, 1))
    else if cmd == GL_INDEXED_PRIMITIVE then
      Indexed(s[1], Word(hostOrder, s, 2), Word(hostOrder, s, 6), Word(hostOrder, s, 10))
    else if cmd == GL_ARRAY_PRIMITIVE then ArrayPrim(s[1], Word(hostOrder, s, 2), Word(hostOrder, s, 6))
    else if IsWord1(cmd) then Word1(cmd, Word(hostOrder, s, 1))
    else if IsWord2(cmd) then Word2(cmd, Word(hostOrder, s, 1), Word(hostOrder, s, 5))
    else if cmd == TILE_BINNING_MODE_CONFIG then
      BinConfig(ReadLe(s, 1), ReadLe(s, 5), ReadLe(s, 9), s[13], s[14], s[15])
    else Plain(cmd, s[1..])
  }

  predicate Sized(p: Packet) {
    match p
    case Word1(cmd, _) => IsWord1(cmd)
    case Word2(cmd, _, _) => IsWord2(cmd)
    case Plain(cmd, payload) => IsPlain(cmd) && 1 + |payload| == PacketSize(cmd)
    case _ => true
  }

  function SizeOf(p: Packet): nat {
    match p
    case GemHandles(_, _) => 9
    case ShaderState(_) => 5
    case Indexed(_, _, _, _) => 14
    case ArrayPrim(_, _, _) => 10
    case Word1(_, _) => 5
    case Word2(_, _, _) => 9
    case BinConfig(_, _, _, _, _, _) => 16
    case Plain(_, payload) => 1 + |payload|
  }

  /** The bytes the V3D reads a packet from. */
  function Encode(p: Packet): (s: seq<byte>)
    ensures |s| == SizeOf(p)
  {
    match p
    case GemHandles(h0, h1) => [GEM_HANDLES] + LeBytes(h0) + LeBytes(h1)
    case ShaderState(address) => [GL_SHADER_STATE] + LeBytes(address)
    case Indexed(mode, count, offset, maxIndex) =>
      [GL_INDEXED_PRIMITIVE, mode] + LeBytes(count) + LeBytes(offset) + LeBytes(maxIndex)
    case ArrayPrim(mode, count, first) => [GL_ARRAY_PRIMITIVE, mode] + LeBytes(count) + LeBytes(first)
    case Word1(cmd, value) => [cmd] + LeBytes(value)
    case Word2(cmd, value0, value1) => [cmd] + LeBytes(value0) + LeBytes(value1)
    case BinConfig(allocAddr, allocSize, stateAddr, tilesX, tilesY, flags) =>
      [TILE_BINNING_MODE_CONFIG] + LeBytes(allocAddr) + LeBytes(allocSize) + LeBytes(stateAddr)
      + [tilesX, tilesY, flags]
    case Plain(cmd, payload) => [cmd] + payload
  }

  /** The V3D reads back the packet that was written. */
  lemma DecodeEncode(p: Packet)
    requires Sized(p)
    ensures Encode(p) != [] && PacketSize(Encode(p)[0]) == SizeOf(p)
    ensures Decode(false, Encode(p)) == p
  {
    match p
    case Indexed(_, _, _, _) => DecodeIndexed(p);
    case BinConfig(_, _, _, _, _, _) => DecodeBinConfig(p);
    case Plain(_, payload) => assert Encode(p)[1..] == payload;
    case _ => DecodeWords(p);
  }

  lemma DecodeIndexed(p: Packet)
    requires p.Indexed?
    ensures Decode(false, Encode(p)) == p
  {
    ReadThree([GL_INDEXED_PRIMITIVE, p.mode], p.count, p.offset, p.maxIndex, []);
    assert Encode(p) == Encode(p) + [];
  }

  lemma DecodeBinConfig(p: Packet)
    requires p.BinConfig?
    ensures Decode(false, Encode(p)) == p
  {
    ReadThree([TILE_BINNING_MODE_CONFIG], p.allocAddr, p.allocSize, p.stateAddr, [p.tilesX, p.tilesY, p.flags]);
  }

  lemma DecodeWords(p: Packet)
    requires Sized(p) && !p.Indexed? && !p.BinConfig? && !p.Plain?
    ensures Decode(false, Encode(p)) == p
  {
  }

  lemma ReadThree(a: seq<byte>, u: u32, v: u32, w: u32, c: seq<byte>)
    ensures var s := a + LeBytes(u) + LeBytes(v) + LeBytes(w) + c;
            ReadLe(s, |a|) == u && ReadLe(s, |a| + 4) == v && ReadLe(s, |a| + 8) == w
  {
    var x, y, z := LeBytes(u), LeBytes(v), LeBytes(w);
    ReadPrefix(a + x + y, z, |a|);
    ReadPrefix(a + x + y, z, |a| + 4);
    ReadPrefix(a + x + y + z, c, |a|);
    ReadPrefix(a + x + y + z, c, |a| + 4);
    ReadLeAt(a + x + y, z, c, w);
  }

  lemma ReadPrefix(a: seq<byte>, b: seq<byte>, i: nat)
    requires i + 4 <= |a|
    ensures ReadLe(a + b, i) == ReadLe(a, i)
  {
  }

  function EncodeAll(ps: seq<Packet>): seq<byte> {
    if ps == [] then [] else EncodeAll(ps[..|ps| - 1]) + Encode(ps[|ps| - 1])
  }

  /** Walk a list by the packet-size table; None when a packet is unknown or cut short. */
  function Walk(hostOrder: bool, s: seq<byte>): Option<seq<Packet>>
    decreases |s|
  {
    if s == [] then Some([])
    else
      var size := PacketSize(s[0]);
      if size == 0 || size > |s| then None
      else
        match Walk(hostOrder, s[size..])
        case None => None
        case Some(rest) => Some([Decode(hostOrder, s[..size])] + rest)
  }

  lemma {:induction false} EncodeAllCons(p: Packet, ps: seq<Packet>)
    ensures EncodeAll([p] + ps) == Encode(p) + EncodeAll(ps)
  {
    var all := [p] + ps;
    if ps == [] {
      assert all[..0] == [] && all[0] == p;
    } else {
      var front, last := ps[..|ps| - 1], ps[|ps| - 1];
      EncodeAllCons(p, front);
      assert all[..|all| - 1] == [p] + front && all[|all| - 1] == last;
      Assoc(Encode(p), EncodeAll(front), Encode(last));
    }
  }

  lemma Assoc(a: seq<byte>, b: seq<byte>, c: seq<byte>)
    ensures (a + b) + c == a + (b + c)
  {
  }

  /** Walking what was emitted by the size table gives exactly the emitted packets. */
  lemma {:induction false} WalkEncodeAll(ps: seq<Packet>)
    requires forall p <- ps :: Sized(p)
    ensures Walk(false, EncodeAll(ps)) == Some(ps)
  {
    if ps != [] {
      var p, rest := ps[0], ps[1..];
      WalkEncodeAll(rest);
      assert ps == [p] + rest;
      EncodeAllCons(p, rest);
      DecodeEncode(p);
      var s := EncodeAll(ps);
      assert s[..SizeOf(p)] == Encode(p) && s[SizeOf(p)..] == EncodeAll(rest);
    }
  }

  // ---- Packets in place ----

  predicate PacketFits(s: seq<byte>, off: nat) {
    off < |s| && PacketSize(s[off]) != 0 && off + PacketSize(s[off]) <= |s|
  }

  function PacketAt(s: seq<byte>, off: nat): Packet
    requires PacketFits(s, off)
  {
    Decode(true, s[off..off + PacketSize(s[off])])
  }

  /** Reading a packet's fields at their offsets in the list. */
  lemma PacketFields(s: seq<byte>, off: nat)
    requires PacketFits(s, off)
    ensures var p := PacketAt(s, off);
            match p
            case GemHandles(h0, h1) => s[off] == GEM_HANDLES && h0 == ReadBe(s, off + 1) && h1 == ReadBe(s, off + 5)
            case ShaderState(address) => s[off] == GL_SHADER_STATE && address == ReadLe(s, off + 1)
            case Indexed(mode, count, offset, maxIndex) =>
              && s[off] == GL_INDEXED_PRIMITIVE && mode == s[off + 1]
              && count == ReadBe(s, off + 2) && offset == ReadBe(s, off + 6) && maxIndex == ReadBe(s, off + 10)
            case ArrayPrim(mode, count, first) =>
              && s[off] == GL_ARRAY_PRIMITIVE && mode == s[off + 1]
              && count == ReadBe(s, off + 2) && first == ReadBe(s, off + 6)
            case Word1(cmd, value) => s[off] == cmd && value == ReadBe(s, off + 1)
            case Word2(cmd, value0, value1) =>
              s[off] == cmd && value0 == ReadBe(s, off + 1) && value1 == ReadBe(s, off + 5)
            case BinConfig(_, _, _, tilesX, tilesY, flags) =>
              && s[off] == TILE_BINNING_MODE_CONFIG
              && tilesX == s[off + 13] && tilesY == s[off + 14] && flags == s[off + 15]
            case Plain(cmd, payload) => s[off] == cmd && [cmd] + payload == s[off..off + PacketSize(cmd)]
  {
    var t := s[off..off + PacketSize(s[off])];
    assert t[0] == s[off];
    if IsPlain(t[0]) {
      assert t == [t[0]] + t[1..];
    }
  }

  lemma TailPacket(s: seq<byte>, off: nat)
    requires off < |s|
    ensures s[off..] != [] && s[off..][0] == s[off] && |s[off..]| == |s| - off
    ensures PacketFits(s, off) ==>
      && s[off..][..PacketSize(s[off])] == s[off..off + PacketSize(s[off])]
      && s[off..][PacketSize(s[off])..] == s[off + PacketSize(s[off])..]
  {
  }
}
