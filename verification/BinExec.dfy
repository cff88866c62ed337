/** exec_state and the loop of process_bin_cl, over real buffers. */
module BinExec {
  import opened Bytes
  import opened Packets
  import opened Buffers
  import opened BinList

  lemma EncodeSnoc(ps: seq<Packet>, p: Packet)
    ensures EncodeAll(ps + [p]) == EncodeAll(ps) + Encode(p)
  {
    var all := ps + [p];
    assert all[..|all| - 1] == ps && all[|all| - 1] == p;
  }

  /** Swap n indices of a buffer into the scratch; the buffer itself is left alone. */
  method SwapIndices(mem: seq<byte>, offset: nat, n: nat, scratch: array<byte>, at: nat) returns (actualMax: u32)
    requires offset + 2 * n <= |mem| && at + 2 * n <= scratch.Length
    modifies scratch
    ensures scratch[..] == Splice(old(scratch[..]), at, SwapPairs(mem[offset..offset + 2 * n]))
    ensures actualMax == MaxIndex(mem, offset, n)
  {
    actualMax := 0;
    var i := 0;
    ghost var idx := SwapPairs(mem[offset..offset + 2 * n]);
    while i < n
      invariant 0 <= i <= n
      invariant actualMax == MaxIndex(mem, offset, i)
      invariant forall k :: 0 <= k < 2 * i ==> scratch[at + k] == idx[k]
      invariant forall k :: 0 <= k < scratch.Length && !(at <= k < at + 2 * i) ==> scratch[k] == old(scratch[k])
    {
      var index := Be16(mem, offset + 2 * i);
      if index > actualMax {
        actualMax := index;
      }
      scratch[at + 2 * i], scratch[at + 2 * i + 1] := mem[offset + 2 * i + 1], mem[offset + 2 * i];
      i := i + 1;
    }
    assert scratch[..] == Splice(old(scratch[..]), at, idx);
  }

  // ---- Storing one packet ----

  method EmitWord(dst: array<byte>, at: nat, cmd: byte, v: u32)
    requires at + 5 <= dst.Length
    modifies dst
    ensures dst[..] == Splice(old(dst[..]), at, [cmd] + LeBytes(v))
  {
    PutByte(dst, at, cmd);
    PutLe(dst, at + 1, v);
    SpliceJoin(old(dst[..]), at, [cmd], LeBytes(v));
  }

  method EmitTwoWords(dst: array<byte>, at: nat, cmd: byte, v0: u32, v1: u32)
    requires at + 9 <= dst.Length
    modifies dst
    ensures dst[..] == Splice(old(dst[..]), at, [cmd] + LeBytes(v0) + LeBytes(v1))
  {
    EmitWord(dst, at, cmd, v0);
    PutLe(dst, at + 5, v1);
    SpliceJoin(old(dst[..]), at, [cmd] + LeBytes(v0), LeBytes(v1));
  }

  method EmitArrayPrim(dst: array<byte>, at: nat, mode: byte, count: u32, first: u32)
    requires at + 10 <= dst.Length
    modifies dst
    ensures dst[..] == Splice(old(dst[..]), at, Encode(ArrayPrim(mode, count, first)))
  {
    PutByte(dst, at, GL_ARRAY_PRIMITIVE);
    PutByte(dst, at + 1, mode);
    SpliceJoin(old(dst[..]), at, [GL_ARRAY_PRIMITIVE], [mode]);
    assert [GL_ARRAY_PRIMITIVE] + [mode] == [GL_ARRAY_PRIMITIVE, mode];
    PutLe(dst, at + 2, count);
    SpliceJoin(old(dst[..]), at, [GL_ARRAY_PRIMITIVE, mode], LeBytes(count));
    PutLe(dst, at + 6, first);
    SpliceJoin(old(dst[..]), at, [GL_ARRAY_PRIMITIVE, mode] + LeBytes(count), LeBytes(first));
  }

  method PutThree(dst: array<byte>, at: nat, u: u32, v: u32, w: u32)
    requires at + 12 <= dst.Length
    modifies dst
    ensures dst[..] == Splice(old(dst[..]), at, LeBytes(u) + LeBytes(v) + LeBytes(w))
  {
    PutLe(dst, at, u);
    PutLe(dst, at + 4, v);
    SpliceJoin(old(dst[..]), at, LeBytes(u), LeBytes(v));
    PutLe(dst, at + 8, w);
    SpliceJoin(old(dst[..]), at, LeBytes(u) + LeBytes(v), LeBytes(w));
  }

  /** Copy a packet and patch three consecutive words of it. */
  method EmitPatched(src: seq<byte>, dst: array<byte>, at: nat, head: nat, u: u32, v: u32, w: u32)
    requires at + |src| <= dst.Length && head + 12 <= |src|
    modifies dst
    ensures dst[..] == Splice(old(dst[..]), at, Splice(src, head, LeBytes(u) + LeBytes(v) + LeBytes(w)))
  {
    CopyMem(src, dst, at);
    PutThree(dst, at + head, u, v, w);
    SpliceInside(old(dst[..]), at, src, head, LeBytes(u) + LeBytes(v) + LeBytes(w));
  }

  class Exec {
    const env: BinEnv
    /** shader_state_addrs is slots[..], shader_state_max_index is slots[need..]. */
    const slots: array<u32>
    const need: nat
    const scratch: array<byte>

    var hindex0: u32
    var bo0: u32
    var hindex1: u32
    var bo1: u32
    var count: nat
    var recPos: u32
    var used: nat
    var tilesX: u32
    var tilesY: u32
    ghost var out: seq<Packet>

    ghost predicate Shape()
      reads this
    {
      && ValidEnv(env)
      && need <= env.slotsMax && slots.Length == 2 * env.slotsMax && count <= need
      && scratch.Length == env.scratchSize
    }

    ghost function Abs(): BinState
      requires Shape()
      reads this, slots, scratch
    {
      BinState(hindex0, bo0, hindex1, bo1, slots[..count], slots[need..need + count], recPos,
               scratch[..], used, tilesX, tilesY, out)
    }

    ghost predicate Valid()
      reads this, slots, scratch
    {
      Shape() && ValidState(env, Abs())
    }

    constructor (env: BinEnv, slots: array<u32>, need: nat, scratch: array<byte>, tilesX: u32, tilesY: u32)
      requires ValidEnv(env) && need <= env.slotsMax && slots.Length == 2 * env.slotsMax
      requires scratch.Length == env.scratchSize
      ensures Valid() && Abs() == InitState(env, tilesX, tilesY, scratch[..])
      ensures this.env == env && this.slots == slots && this.need == need && this.scratch == scratch
    {
      this.env, this.slots, this.need, this.scratch := env, slots, need, scratch;
      hindex0, bo0, hindex1, bo1 := 0, 0, 0, 0;
      count, recPos, used := 0, env.recBus, 0;
      this.tilesX, this.tilesY := tilesX, tilesY;
      out := [];
    }

    /** GEM_HANDLES: the current buffers change, nothing is emitted. */
    method SetHandles(h0: u32, h1: u32)
      requires Valid()
      modifies this`hindex0, this`bo0, this`hindex1, this`bo1
      ensures Valid() && Step(env, old(Abs()), GemHandles(h0, h1)) == Some(Abs())
    {
      hindex0 := h0;
      bo0 := BusAddr(env.handles, h0);
      if h1 != 0 {
        hindex1 := h1;
        bo1 := BusAddr(env.handles, h1);
      }
    }

    /** Raise the vertex maximum of the newest shader state. */
    method RecordMax(maxIndex: u32)
      requires Valid()
      modifies slots
      ensures Valid() && Abs() == old(Abs()).(maxes := NoteMax(old(Abs()).maxes, maxIndex))
    {
      ghost var was := Abs();
      if count != 0 && maxIndex > slots[need + count - 1] {
        assert was.maxes[count - 1] == slots[need + count - 1];
        slots[need + count - 1] := maxIndex;
        assert slots[need..need + count] == was.maxes[count - 1 := maxIndex];
      }
      assert slots[..count] == was.lows;
    }

    // ---- One packet ----

    /** What emitting q leaves behind. */
    ghost predicate Emitted(dst: array<byte>, dstOff: nat)
      reads dst, this`out
    {
      dstOff == |EncodeAll(out)| <= dst.Length && dst[..dstOff] == EncodeAll(out)
    }

    /** Account for a packet just stored behind the previous ones. */
    ghost method Append(dst: array<byte>, was: seq<byte>, dstOff: nat, q: Packet)
      requires dstOff == |EncodeAll(out)| && dstOff + SizeOf(q) <= dst.Length == |was|
      requires was[..dstOff] == EncodeAll(out) && dst[..] == Splice(was, dstOff, Encode(q))
      modifies this`out
      ensures out == old(out) + [q] && Emitted(dst, dstOff + SizeOf(q))
    {
      EncodeSnoc(out, q);
      Bytes.SplicePrefix(was, dstOff, Encode(q));
      assert dst[..dstOff + SizeOf(q)] == dst[..][..dstOff + SizeOf(q)];
      out := out + [q];
    }

    method EmitShaderState(address: u32, dst: array<byte>, dstOff: nat)
      requires Valid() && Emitted(dst, dstOff) && dstOff + 5 <= dst.Length
      requires count < need
      requires dst != scratch
      modifies this`out, this`count, this`recPos, slots, dst
      ensures Valid() && Step(env, old(Abs()), ShaderState(address)) == Some(Abs())
      ensures count == old(count) + 1
      ensures Emitted(dst, dstOff + 5)
    {
      ghost var was, before := Abs(), dst[..];
      var low := address % 16;
      slots[count] := low;
      slots[need + count] := 0;
      count := count + 1;
      assert slots[..count] == was.lows + [low];
      assert slots[need..need + count] == was.maxes + [0];
      EmitWord(dst, dstOff, GL_SHADER_STATE, PatchedAddress(recPos, low));
      Append(dst, before, dstOff, ShaderState(PatchedAddress(recPos, low)));
      recPos := NextRecord(recPos, low);
    }

    /** Swap a 16-bit draw's indices into the scratch; 8-bit draws keep their buffer. */
    method FetchIndices(p: Packet) returns (ok: bool, ibBus: u32, maxIndex: u32)
      requires Valid() && p.Indexed?
      modifies this`used, scratch
      ensures Valid() && ok == Fetch(env, old(Abs()), p).Some?
      ensures ok ==> Fetch(env, old(Abs()), p) == Some(Fetched(Abs().scratch, used, ibBus, maxIndex))
      ensures Abs() == old(Abs()).(scratch := Abs().scratch, used := used)
    {
      ok, ibBus, maxIndex := true, Wrap(bo0 + p.offset), p.maxIndex;
      if IsU16(p.mode) {
        if p.count > U32_MAX / 2 {
          return false, 0, 0;
        }
        var bytes := p.count * 2;
        var bo := Resolve(env.handles, hindex0);
        if bo.None? {
          return false, 0, 0;
        }
        var size := |bo.value.mem|;
        if p.offset > size || bytes > size - p.offset || bytes > env.scratchSize - used {
          return false, 0, 0;
        }
        ibBus := Wrap(env.scratchBus + used);
        maxIndex := TakeRange(p, bo.value.mem);
      }
    }

    method TakeRange(p: Packet, mem: seq<byte>) returns (maxIndex: u32)
      requires Valid() && p.Indexed? && IsU16(p.mode) && IndexRangeOk(env, Abs(), p.count, p.offset)
      requires mem == Resolve(env.handles, hindex0).value.mem
      modifies this`used, scratch
      ensures Valid() && Abs() == old(Abs()).(scratch := scratch[..], used := used)
      ensures Fetch(env, old(Abs()), p)
           == Some(Fetched(scratch[..], used, Wrap(env.scratchBus + old(used)), maxIndex))
    {
      assert Fetch(env, Abs(), p).Some?;
      hide Splice, SwapPairs, MaxIndex, AfterRange, RoundUp;
      maxIndex := SwapIndices(mem, p.offset, p.count, scratch, used);
      used := AfterRange(used, 2 * p.count);
    }

    /** GL_INDEXED_PRIMITIVE. */
    method EmitIndexed(p: Packet, pkt: seq<byte>, dst: array<byte>, dstOff: nat) returns (ok: bool)
      requires Valid() && Emitted(dst, dstOff) && dstOff + 14 <= dst.Length
      requires p.Indexed? && |pkt| == 14 && pkt[0] == GL_INDEXED_PRIMITIVE && pkt[1] == p.mode
      requires dst != scratch
      modifies this`out, this`used, slots, dst, scratch
      ensures Valid() && ok == Step(env, old(Abs()), p).Some?
      ensures ok ==> Step(env, old(Abs()), p) == Some(Abs()) && Emitted(dst, dstOff + 14)
    {
      hide EncodeAll, Fetch;
      var ibBus, maxIndex;
      ok, ibBus, maxIndex := FetchIndices(p);
      if ok {
        StoreIndexed(p, pkt, ibBus, maxIndex, dst, dstOff);
        RecordMax(maxIndex);
      }
    }

    method StoreIndexed(p: Packet, pkt: seq<byte>, ibBus: u32, maxIndex: u32, dst: array<byte>, dstOff: nat)
      requires Emitted(dst, dstOff) && dstOff + 14 <= dst.Length
      requires p.Indexed? && |pkt| == 14 && pkt[0] == GL_INDEXED_PRIMITIVE && pkt[1] == p.mode
      modifies this`out, dst
      ensures out == old(out) + [p.(offset := ibBus, maxIndex := maxIndex)] && Emitted(dst, dstOff + 14)
    {
      ghost var before := dst[..];
      EmitPatched(pkt, dst, dstOff, 2, p.count, ibBus, maxIndex);
      ghost var q := p.(offset := ibBus, maxIndex := maxIndex);
      assert Splice(pkt, 2, LeBytes(p.count) + LeBytes(ibBus) + LeBytes(maxIndex)) == Encode(q);
      Append(dst, before, dstOff, q);
    }

    method EmitArray(count: u32, first: u32, mode: byte, dst: array<byte>, dstOff: nat)
      requires Valid() && Emitted(dst, dstOff) && dstOff + 10 <= dst.Length && dst != scratch
      modifies this`out, slots, dst
      ensures Valid() && Step(env, old(Abs()), ArrayPrim(mode, count, first)) == Some(Abs())
      ensures Emitted(dst, dstOff + 10)
    {
      hide EncodeAll, Encode, LeBytes, ReadLe, ReadBe;
      StoreOther(ArrayPrim(mode, count, first), [], dst, dstOff);
      RecordMax(ArrayMax(count, first));
    }

    /** TILE_BINNING_MODE_CONFIG: our addresses and flags, the packet's tile counts. */
    method EmitBinConfig(p: Packet, pkt: seq<byte>, dst: array<byte>, dstOff: nat)
      requires Valid() && Emitted(dst, dstOff) && dstOff + 16 <= dst.Length && dst != scratch
      requires p.BinConfig? && |pkt| == 16 && pkt[0] == TILE_BINNING_MODE_CONFIG
      requires pkt[13] == p.tilesX && pkt[14] == p.tilesY && pkt[15] == p.flags
      modifies this`out, this`tilesX, this`tilesY, dst
      ensures Valid() && Step(env, old(Abs()), p) == Some(Abs())
      ensures Emitted(dst, dstOff + 16)
    {
      hide EncodeAll, Encode, LeBytes;
      StoreBinConfig(p, pkt, dst, dstOff);
      tilesX, tilesY := p.tilesX, p.tilesY;
    }

    function PatchedConfig(p: Packet): Packet
      requires p.BinConfig?
    {
      BinConfig(env.tileAllocBus, env.tileAllocSize, env.tileStateBus, p.tilesX, p.tilesY, PatchFlags(p.flags))
    }

    method StoreBinConfig(p: Packet, pkt: seq<byte>, dst: array<byte>, dstOff: nat)
      requires Emitted(dst, dstOff) && dstOff + 16 <= dst.Length
      requires p.BinConfig? && |pkt| == 16 && pkt[0] == TILE_BINNING_MODE_CONFIG
      requires pkt[13] == p.tilesX && pkt[14] == p.tilesY && pkt[15] == p.flags
      modifies this`out, dst
      ensures out == old(out) + [PatchedConfig(p)] && Emitted(dst, dstOff + 16)
    {
      ghost var before := dst[..];
      EmitPatched(pkt, dst, dstOff, 1, env.tileAllocBus, env.tileAllocSize, env.tileStateBus);
      PutByte(dst, dstOff + 15, PatchFlags(pkt[15]));
      ghost var patched := Splice(pkt, 1,
          LeBytes(env.tileAllocBus) + LeBytes(env.tileAllocSize) + LeBytes(env.tileStateBus));
      SpliceInside(before, dstOff, patched, 15, [PatchFlags(p.flags)]);
      assert Splice(patched, 15, [PatchFlags(p.flags)]) == Encode(PatchedConfig(p));
      Append(dst, before, dstOff, PatchedConfig(p));
    }

    /** Packets whose fields are stored little-endian, or copied as they are. */
    method EmitOther(p: Packet, pkt: seq<byte>, dst: array<byte>, dstOff: nat)
      requires Valid() && Emitted(dst, dstOff) && dstOff + SizeOf(p) <= dst.Length && dst != scratch
      requires Sized(p) && (p.Word1? || p.Word2? || (p.Plain? && pkt == [p.cmd] + p.payload))
      modifies this`out, dst
      ensures Valid() && Step(env, old(Abs()), p) == Some(Abs())
      ensures Emitted(dst, dstOff + SizeOf(p))
    {
      hide EncodeAll, Encode, LeBytes, ReadLe, ReadBe;
      StoreOther(p, pkt, dst, dstOff);
    }

    method StoreOther(p: Packet, pkt: seq<byte>, dst: array<byte>, dstOff: nat)
      requires Emitted(dst, dstOff) && dstOff + SizeOf(p) <= dst.Length
      requires p.ArrayPrim? || p.Word1? || p.Word2? || (p.Plain? && pkt == [p.cmd] + p.payload)
      modifies this`out, dst
      ensures out == old(out) + [p] && Emitted(dst, dstOff + SizeOf(p))
    {
      ghost var before := dst[..];
      match p {
        case ArrayPrim(mode, count, first) => EmitArrayPrim(dst, dstOff, mode, count, first);
        case Word1(cmd, value) => EmitWord(dst, dstOff, cmd, value);
        case Word2(cmd, value0, value1) => EmitTwoWords(dst, dstOff, cmd, value0, value1);
        case Plain(_, _) => CopyMem(pkt, dst, dstOff);
      }
      Append(dst, before, dstOff, p);
    }

    // ---- The loop ----

    /** The switch of process_bin_cl for one packet; n is what it added to the output. */
    method RewritePacket(src: seq<byte>, off: nat, dst: array<byte>, dstOff: nat, dstMax: nat)
      returns (ok: bool, n: nat)
      requires Valid() && Emitted(dst, dstOff) && dst != scratch
      requires PacketFits(src, off) && dstOff <= off && |src| <= dstMax <= dst.Length
      requires 5 * count <= off && 5 * need > |src|
      modifies this, slots, dst, scratch
      ensures Valid() && ok == Step(env, old(Abs()), PacketAt(src, off)).Some?
      ensures ok ==> Step(env, old(Abs()), PacketAt(src, off)) == Some(Abs())
      ensures ok ==> n <= PacketSize(src[off]) && Emitted(dst, dstOff + n)
      ensures count == old(count) || (count == old(count) + 1 && PacketSize(src[off]) == 5)
    {
      hide Step, StepIndexed, ValidState, EncodeAll;
      var p, pkt := PacketAt(src, off), src[off..off + PacketSize(src[off])];
      PacketFields(src, off);
      ok, n := true, SizeOf(p);
      assert n == PacketSize(src[off]);
      if dstOff + n > dstMax {
        assert false;
      }
      if p.GemHandles? {
        SetHandles(p.hindex0, p.hindex1);
        n := 0;
      } else if p.ShaderState? {
        if count >= env.slotsMax {
          assert false;
        }
        EmitShaderState(p.address, dst, dstOff);
      } else if p.Indexed? {
        ok := EmitIndexed(p, pkt, dst, dstOff);
      } else {
        EmitPlainly(p, pkt, dst, dstOff);
      }
    }

    method EmitPlainly(p: Packet, pkt: seq<byte>, dst: array<byte>, dstOff: nat)
      requires Valid() && Emitted(dst, dstOff) && dstOff + SizeOf(p) <= dst.Length && dst != scratch
      requires Sized(p) && !p.GemHandles? && !p.ShaderState? && !p.Indexed?
      requires p.Plain? ==> pkt == [p.cmd] + p.payload
      requires p.BinConfig? ==>
        && |pkt| == 16 && pkt[0] == TILE_BINNING_MODE_CONFIG
        && pkt[13] == p.tilesX && pkt[14] == p.tilesY && pkt[15] == p.flags
      modifies this`out, this`tilesX, this`tilesY, slots, dst
      ensures Valid() && Step(env, old(Abs()), p) == Some(Abs())
      ensures Emitted(dst, dstOff + SizeOf(p))
    {
      if p.ArrayPrim? {
        EmitArray(p.count, p.first, p.mode, dst, dstOff);
      } else if p.BinConfig? {
        EmitBinConfig(p, pkt, dst, dstOff);
      } else {
        EmitOther(p, pkt, dst, dstOff);
      }
    }

    /**
     * process_bin_cl: the bytes emitted, 0 when the list is refused.
     * The output is the encoding of the packets the specification computes.
     */
    method ProcessBinCl(src: seq<byte>, dst: array<byte>, dstMax: nat) returns (r: nat)
      requires Valid() && out == [] && dst != scratch
      requires |src| <= dstMax <= dst.Length && count == 0 && 5 * need > |src|
      modifies this, slots, dst, scratch
      ensures Valid()
      ensures r == 0 <==> ProcessedList(env, old(Abs()), src).None? || (src == [] && dstMax < 19)
      ensures r != 0 ==> ProcessedList(env, old(Abs()), src) == Some(Abs()) && Emitted(dst, r)
    {
      if |src| == 0 {
        if dstMax < 19 {
          return 0;
        }
        r := EmitRenderOnly(dst);
        return;
      }
      assert EncodeAll(out) == [];
      hide ValidState, EncodeAll, Step, Compile, PacketAt;
      var off, dstOff, ok := 0, 0, true;
      assert src[0..] == src;
      while off < |src|
        invariant 0 <= dstOff <= off <= |src| && 5 * count <= off
        invariant Valid() && Emitted(dst, dstOff)
        invariant Compile(env, Abs(), src[off..]) == Compile(env, old(Abs()), src)
      {
        ok, off, dstOff := RewriteAt(src, off, dst, dstOff, dstMax);
        if !ok {
          return 0;
        }
      }
      CompileAt(env, Abs(), src, off);
      return dstOff;
    }

    /** One turn of the loop: the list after this packet still compiles to the same result. */
    method RewriteAt(src: seq<byte>, off: nat, dst: array<byte>, dstOff: nat, dstMax: nat)
      returns (ok: bool, off': nat, dstOff': nat)
      requires Valid() && Emitted(dst, dstOff) && dst != scratch
      requires dstOff <= off < |src| <= dstMax <= dst.Length
      requires 5 * count <= off && 5 * need > |src|
      modifies this, slots, dst, scratch
      ensures Valid()
      ensures !ok ==> Compile(env, old(Abs()), src[off..]) == None
      ensures ok ==> off < off' <= |src| && dstOff' <= off' && 5 * count <= off' && Emitted(dst, dstOff')
      ensures ok ==> Compile(env, Abs(), src[off'..]) == Compile(env, old(Abs()), src[off..])
    {
      hide ValidState, EncodeAll, Step, Compile, PacketAt;
      var size := PacketSize(src[off]);
      CompileAt(env, Abs(), src, off);
      if size == 0 || off + size > |src| {
        return false, off, dstOff;
      }
      var n;
      ok, n := RewritePacket(src, off, dst, dstOff, dstMax);
      off', dstOff' := off + size, dstOff + n;
    }

    /** A submission without a binner list gets a minimal one without draws. */
    method EmitRenderOnly(dst: array<byte>) returns (r: nat)
      requires Valid() && out == [] && 19 <= dst.Length && dst != scratch
      modifies this`out, dst
      ensures Valid() && Abs() == old(Abs()).(out := RenderOnlyList(env, tilesX, tilesY)) && Emitted(dst, r) && r == 19
    {
      hide ValidState, EncodeAll, Encode, Step, LeBytes;
      ghost var list := RenderOnlyList(env, tilesX, tilesY);
      assert ProcessedList(env, Abs(), []) == Some(Abs().(out := list));
      StoreRenderConfig(BinConfig(env.tileAllocBus, env.tileAllocSize, env.tileStateBus,
                                  tilesX % 0x100, tilesY % 0x100, 0x44), dst);
      StoreOther(Plain(START_TILE_BINNING, []), [START_TILE_BINNING], dst, 16);
      StoreOther(Plain(INCREMENT_SEMAPHORE, []), [INCREMENT_SEMAPHORE], dst, 17);
      StoreOther(Plain(FLUSH, []), [FLUSH], dst, 18);
      assert out == list;
      r := 19;
    }

    method StoreRenderConfig(q: Packet, dst: array<byte>)
      requires q.BinConfig? && out == [] && 16 <= dst.Length
      modifies this`out, dst
      ensures out == [q] && Emitted(dst, 16)
    {
      ghost var was, words := dst[..], LeBytes(q.allocAddr) + LeBytes(q.allocSize) + LeBytes(q.stateAddr);
      assert Encode(q) == [TILE_BINNING_MODE_CONFIG] + words + ([q.tilesX] + [q.tilesY] + [q.flags]);
      assert EncodeAll(out) == [] && SizeOf(q) == 16;
      hide Splice, LeBytes, Encode, EncodeAll, SizeOf;
      PutByte(dst, 0, TILE_BINNING_MODE_CONFIG);
      PutThree(dst, 1, q.allocAddr, q.allocSize, q.stateAddr);
      SpliceJoin(was, 0, [TILE_BINNING_MODE_CONFIG], words);
      ghost var mid, head := dst[..], [TILE_BINNING_MODE_CONFIG] + words;
      PutByte(dst, 13, q.tilesX);
      PutByte(dst, 14, q.tilesY);
      SpliceJoin(mid, 13, [q.tilesX], [q.tilesY]);
      PutByte(dst, 15, q.flags);
      SpliceJoin(mid, 13, [q.tilesX] + [q.tilesY], [q.flags]);
      SpliceJoin(was, 0, head, [q.tilesX] + [q.tilesY] + [q.flags]);
      Append(dst, was, 0, q);
    }
  }

  lemma CompileAt(env: BinEnv, st: BinState, s: seq<byte>, off: nat)
    requires ValidEnv(env) && ValidState(env, st) && off <= |s|
    ensures Compile(env, st, s[off..]) ==
      if off == |s| then Some(st)
      else if !PacketFits(s, off) then None
      else match Step(env, st, PacketAt(s, off))
           case None => None
           case Some(st') => Compile(env, st', s[off + PacketSize(s[off])..])
  {
    if off < |s| {
      TailPacket(s, off);
    }
  }
}
