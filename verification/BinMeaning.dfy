/** What the rewrite of a binner list preserves. */
module BinMeaning {
  import opened Bytes
  import opened Packets
  import opened Buffers
  import opened BinList

  /** What precedes a packet and fixes its meaning. */
  datatype Context = Context(hindex0: u32, bo0: u32, shaders: nat, used: nat)

  function After(env: BinEnv, ctx: Context, p: Packet): Context
    requires ValidEnv(env)
  {
    match p
    case GemHandles(h0, _) => ctx.(hindex0 := h0, bo0 := BusAddr(env.handles, h0))
    case ShaderState(_) => ctx.(shaders := ctx.shaders + 1)
    case Indexed(_, _, _, _) => ctx.(used := ctx.used + IndexBytes(p))
    case _ => ctx
  }

  /** Index scratch one packet needs. */
  function IndexBytes(p: Packet): nat {
    if p.Indexed? && IsU16(p.mode) then RoundUp(2 * p.count, 4) else 0
  }

  function IndexNeed(ps: seq<Packet>): nat {
    if ps == [] then 0 else IndexBytes(ps[0]) + IndexNeed(ps[1..])
  }

  function GemCount(ps: seq<Packet>): nat {
    if ps == [] then 0 else (if ps[0].GemHandles? then 1 else 0) + GemCount(ps[1..])
  }

  /** Where relocate_shader_recs puts record k, relative to the record section. */
  function RecordOffset(lows: seq<u32>, k: nat): (o: nat)
    requires k <= |lows|
    ensures o % 16 == 0
  {
    if k == 0 then 0
    else
      SumAligned(RecordOffset(lows, k - 1), RoundUp(RecordSize(lows[k - 1]), 16));
      RecordOffset(lows, k - 1) + RoundUp(RecordSize(lows[k - 1]), 16)
  }

  // ---- The meaning of one rewritten packet ----

  /** The vertices a draw reaches are counted for the shader state it uses. */
  predicate Covered(fin: BinState, ctx: Context, maxIndex: u32) {
    ctx.shaders > 0 ==> ctx.shaders <= |fin.maxes| && maxIndex <= fin.maxes[ctx.shaders - 1]
  }

  /** The scratch range read little-endian holds the buffer range read big-endian. */
  predicate SameIndices(env: BinEnv, fin: BinState, ctx: Context, p: Packet, q: Packet)
    requires ValidEnv(env) && p.Indexed? && q.Indexed?
  {
    && Resolve(env.handles, ctx.hindex0).Some?
    && var mem := Resolve(env.handles, ctx.hindex0).value.mem;
    && p.offset + 2 * p.count <= |mem|
    && ctx.used + 2 * p.count <= |fin.scratch|
    && q.offset == Wrap(env.scratchBus + ctx.used)
    && IndicesMatch(fin.scratch, ctx.used, mem, p.offset, p.count, q.maxIndex)
  }

  predicate IndicesMatch(scratch: seq<byte>, at: nat, mem: seq<byte>, offset: nat, count: nat, maxIndex: u32)
    requires offset + 2 * count <= |mem| && at + 2 * count <= |scratch|
  {
    && (forall j: nat :: j < count ==> IndexAgrees(scratch, at, mem, offset, j))
    && (forall j: nat :: j < count ==> IndexAt(mem, offset, j) <= maxIndex)
    && (if count == 0 then maxIndex == 0 else exists j: nat :: j < count && IndexAt(mem, offset, j) == maxIndex)
  }

  predicate IndexAgrees(scratch: seq<byte>, at: nat, mem: seq<byte>, offset: nat, j: nat)
    requires offset + 2 * j + 1 < |mem| && at + 2 * j + 1 < |scratch|
  {
    Le16(scratch, at + 2 * j) == IndexAt(mem, offset, j)
  }

  function IndexAt(mem: seq<byte>, offset: nat, j: nat): u32
    requires offset + 2 * j + 1 < |mem|
  {
    Be16(mem, offset + 2 * j)
  }

  predicate SameMeaning(env: BinEnv, fin: BinState, ctx: Context, p: Packet, q: Packet)
    requires ValidEnv(env)
  {
    match p
    case ShaderState(address) =>
      && ctx.shaders < |fin.lows| && fin.lows[ctx.shaders] == address % 16
      && q.ShaderState?
      && q.address / 16 * 16 == Wrap(env.recBus + RecordOffset(fin.lows, ctx.shaders))
      && q.address % 16 == address % 16
    case Indexed(mode, count, offset, maxIndex) =>
      && q.Indexed? && q.mode == mode && q.count == count && Covered(fin, ctx, q.maxIndex)
      && if IsU16(mode) then SameIndices(env, fin, ctx, p, q)
         else q.offset == Wrap(ctx.bo0 + offset) && q.maxIndex == maxIndex
    case ArrayPrim(_, count, first) => q == p && Covered(fin, ctx, ArrayMax(count, first))
    case BinConfig(_, _, _, tilesX, tilesY, flags) =>
      && q.BinConfig? && q.tilesX == tilesX && q.tilesY == tilesY
      && q.allocAddr == env.tileAllocBus && q.allocSize == env.tileAllocSize && q.stateAddr == env.tileStateBus
      && q.flags == PatchFlags(flags)
    case _ => q == p
  }

  /** outs is ins with the GEM_HANDLES removed, in order, each packet meaning what it meant. */
  predicate Faithful(env: BinEnv, fin: BinState, ctx: Context, ins: seq<Packet>, outs: seq<Packet>)
    requires ValidEnv(env)
    decreases |ins|
  {
    if ins == [] then outs == []
    else if ins[0].GemHandles? then Faithful(env, fin, After(env, ctx, ins[0]), ins[1..], outs)
    else
      && outs != []
      && SameMeaning(env, fin, ctx, ins[0], outs[0])
      && Faithful(env, fin, After(env, ctx, ins[0]), ins[1..], outs[1..])
  }

  // ---- The state that matters for the rest of the list ----

  function ContextOf(st: BinState): Context {
    Context(st.hindex0, st.bo0, |st.lows|, st.used)
  }

  predicate RecordsPlaced(env: BinEnv, st: BinState) {
    st.recPos == Wrap(env.recBus + RecordOffset(st.lows, |st.lows|))
  }

  /** What later packets leave alone. */
  predicate Grows(st: BinState, fin: BinState) {
    && st.out <= fin.out && st.lows <= fin.lows
    && |fin.maxes| == |fin.lows| && |st.maxes| == |st.lows|
    && (forall i: nat :: i < |st.maxes| ==> st.maxes[i] <= fin.maxes[i])
    && st.used <= fin.used && st.used <= |st.scratch| && |fin.scratch| == |st.scratch|
    && st.scratch[..st.used] == fin.scratch[..st.used]
  }

  lemma GrowsTransitive(a: BinState, b: BinState, c: BinState)
    requires Grows(a, b) && Grows(b, c)
    ensures Grows(a, c)
  {
    assert a.scratch[..a.used] == b.scratch[..b.used][..a.used] == c.scratch[..b.used][..a.used] == c.scratch[..a.used];
  }

  lemma StepGrows(env: BinEnv, st: BinState, p: Packet)
    requires ValidEnv(env) && ValidState(env, st) && Sized(p) && Step(env, st, p).Some?
    ensures Grows(st, Step(env, st, p).value)
    ensures ContextOf(Step(env, st, p).value) == After(env, ContextOf(st), p)
  {
  }

  lemma {:induction false} CompileGrows(env: BinEnv, st: BinState, s: seq<byte>)
    requires ValidEnv(env) && ValidState(env, st) && Compile(env, st, s).Some?
    ensures Grows(st, Compile(env, st, s).value)
    decreases |s|
  {
    if s != [] {
      var p, size := Decode(true, s[..PacketSize(s[0])]), PacketSize(s[0]);
      var st' := Step(env, st, p).value;
      StepGrows(env, st, p);
      CompileGrows(env, st', s[size..]);
      GrowsTransitive(st, st', Compile(env, st, s).value);
    }
  }

  lemma RecordOffsetPrefix(lows: seq<u32>, more: seq<u32>, k: nat)
    requires k <= |lows| && lows <= more
    ensures RecordOffset(lows, k) == RecordOffset(more, k)
  {
  }

  lemma WrapTwice(x: int, y: int)
    ensures Wrap(Wrap(x) + y) == Wrap(x + y)
  {
  }

  lemma StepPlaces(env: BinEnv, st: BinState, p: Packet)
    requires ValidEnv(env) && ValidState(env, st) && Sized(p) && Step(env, st, p).Some?
    requires RecordsPlaced(env, st)
    ensures RecordsPlaced(env, Step(env, st, p).value)
  {
    match p
    case ShaderState(address) => ShaderStatePlaces(env, st, address);
    case Indexed(_, _, _, _) => assert StepIndexed(env, st, p).value.lows == st.lows;
    case _ =>
  }

  lemma ShaderStatePlaces(env: BinEnv, st: BinState, address: u32)
    requires ValidEnv(env) && ValidState(env, st) && StepShaderState(env, st, address).Some?
    requires RecordsPlaced(env, st)
    ensures RecordsPlaced(env, StepShaderState(env, st, address).value)
  {
    hide RecordSize, RoundUp, Wrap, PatchedAddress;
    var st' := StepShaderState(env, st, address).value;
    var n := |st.lows|;
    RecordOffsetPrefix(st.lows, st'.lows, n);
    WrapTwice(env.recBus + RecordOffset(st.lows, n), RoundUp(RecordSize(address % 16), 16));
  }

  // ---- Each packet keeps its meaning ----

  lemma {:induction false} MaxIndexBounds(s: seq<byte>, at: nat, n: nat)
    requires at + 2 * n <= |s|
    ensures forall j: nat :: j < n ==> IndexAt(s, at, j) <= MaxIndex(s, at, n)
    ensures if n == 0 then MaxIndex(s, at, n) == 0
              else exists j: nat :: j < n && IndexAt(s, at, j) == MaxIndex(s, at, n)
  {
    if n > 0 {
      MaxIndexBounds(s, at, n - 1);
      assert MaxIndex(s, at, n) == Max(MaxIndex(s, at, n - 1), IndexAt(s, at, n - 1));
    }
  }

  lemma IndicesSwapped(scratch: seq<byte>, at: nat, mem: seq<byte>, offset: nat, count: nat)
    requires offset + 2 * count <= |mem| && at + 2 * count <= |scratch|
    requires scratch[at..at + 2 * count] == SwapPairs(mem[offset..offset + 2 * count])
    ensures IndicesMatch(scratch, at, mem, offset, count, MaxIndex(mem, offset, count))
  {
    MaxIndexBounds(mem, offset, count);
    forall j: nat | j < count
      ensures IndexAgrees(scratch, at, mem, offset, j)
    {
      var src, dst := mem[offset..offset + 2 * count], scratch[at..at + 2 * count];
      assert dst[2 * j] == src[2 * j + 1] && dst[2 * j + 1] == src[2 * j];
    }
  }

  lemma IndexedMeaning(env: BinEnv, st: BinState, p: Packet, fin: BinState)
    requires ValidEnv(env) && ValidState(env, st) && p.Indexed? && StepIndexed(env, st, p).Some?
    requires Grows(StepIndexed(env, st, p).value, fin)
    ensures var st' := StepIndexed(env, st, p).value;
            && |st'.out| == |st.out| + 1 && st.out <= st'.out
            && SameMeaning(env, fin, ContextOf(st), p, st'.out[|st.out|])
  {
    if IsU16(p.mode) {
      U16Meaning(env, st, p, fin);
    }
  }

  lemma RangeHolds(before: seq<byte>, used: nat, bus: u32, mem: seq<byte>, offset: nat, count: nat)
    requires used % 4 == 0 && |before| % 4 == 0 && offset + 2 * count <= |mem| && used + 2 * count <= |before|
    ensures var f := CopyRange(before, used, bus, mem, offset, count);
            && f.scratch[used..used + 2 * count] == SwapPairs(mem[offset..offset + 2 * count])
            && used + 2 * count <= f.used && f.maxIndex == MaxIndex(mem, offset, count) && f.bus == Wrap(bus + used)
  {
    hide MaxIndex, SwapPairs, RoundUp, Wrap;
    SplicePrefix(before, used, SwapPairs(mem[offset..offset + 2 * count]));
  }

  /** Whatever follows, the range just written keeps the indices it was given. */
  lemma RangeIndices(before: seq<byte>, used: nat, bus: u32, mem: seq<byte>, offset: nat, count: nat,
                     scratch: seq<byte>)
    requires used % 4 == 0 && |before| % 4 == 0 && offset + 2 * count <= |mem| && used + 2 * count <= |before|
    requires var f := CopyRange(before, used, bus, mem, offset, count);
             |scratch| == |f.scratch| && scratch[..f.used] == f.scratch[..f.used]
    ensures IndicesMatch(scratch, used, mem, offset, count, CopyRange(before, used, bus, mem, offset, count).maxIndex)
  {
    hide MaxIndex, IndicesMatch, SwapPairs, CopyRange;
    var f := CopyRange(before, used, bus, mem, offset, count);
    RangeHolds(before, used, bus, mem, offset, count);
    PrefixSlice(f.scratch, scratch, f.used, used, used + 2 * count);
    IndicesSwapped(scratch, used, mem, offset, count);
  }

  lemma FetchedIndices(env: BinEnv, st: BinState, p: Packet, scratch: seq<byte>)
    requires ValidEnv(env) && ValidState(env, st) && p.Indexed? && IsU16(p.mode) && Fetch(env, st, p).Some?
    requires var f := Fetch(env, st, p).value; |scratch| == |f.scratch| && scratch[..f.used] == f.scratch[..f.used]
    ensures IndexRangeOk(env, st, p.count, p.offset)
    ensures var mem, f := Resolve(env.handles, st.hindex0).value.mem, Fetch(env, st, p).value;
            && f.bus == Wrap(env.scratchBus + st.used)
            && IndicesMatch(scratch, st.used, mem, p.offset, p.count, f.maxIndex)
  {
    hide IndicesMatch, CopyRange, Resolve;
    var mem := Resolve(env.handles, st.hindex0).value.mem;
    RangeHolds(st.scratch, st.used, env.scratchBus, mem, p.offset, p.count);
    RangeIndices(st.scratch, st.used, env.scratchBus, mem, p.offset, p.count, scratch);
  }

  lemma U16Meaning(env: BinEnv, st: BinState, p: Packet, fin: BinState)
    requires ValidEnv(env) && ValidState(env, st) && p.Indexed? && IsU16(p.mode)
    requires StepIndexed(env, st, p).Some? && Grows(StepIndexed(env, st, p).value, fin)
    ensures SameIndices(env, fin, ContextOf(st), p, StepIndexed(env, st, p).value.out[|st.out|])
  {
    hide IndicesMatch, Fetch, ValidState;
    FetchedIndices(env, st, p, fin.scratch);
  }

  lemma PrefixSlice(a: seq<byte>, b: seq<byte>, n: nat, lo: nat, hi: nat)
    requires lo <= hi <= n <= |a| && n <= |b| && a[..n] == b[..n]
    ensures a[lo..hi] == b[lo..hi]
  {
    assert a[lo..hi] == a[..n][lo..hi];
    assert b[lo..hi] == b[..n][lo..hi];
  }

  lemma StepMeaning(env: BinEnv, st: BinState, p: Packet, fin: BinState)
    requires ValidEnv(env) && ValidState(env, st) && Sized(p) && Step(env, st, p).Some?
    requires RecordsPlaced(env, st) && Grows(Step(env, st, p).value, fin)
    requires !p.GemHandles?
    ensures var st' := Step(env, st, p).value;
            && |st'.out| == |st.out| + 1 && st.out <= st'.out
            && SameMeaning(env, fin, ContextOf(st), p, st'.out[|st.out|])
  {
    match p
    case Indexed(_, _, _, _) => IndexedMeaning(env, st, p, fin);
    case ShaderState(address) => RecordOffsetPrefix(st.lows, fin.lows, |st.lows|);
    case _ =>
  }

  // ---- Main results ----

  /** Every accepted list comes out with its packets in order, GEM_HANDLES gone, meanings kept. */
  lemma {:induction false} RewriteKeepsMeaning(env: BinEnv, st: BinState, s: seq<byte>)
    requires ValidEnv(env) && ValidState(env, st) && RecordsPlaced(env, st)
    requires Compile(env, st, s).Some?
    ensures var fin := Compile(env, st, s).value;
            && st.out <= fin.out && Walk(true, s).Some?
            && Walk(false, EncodeAll(fin.out)) == Some(fin.out)
            && Faithful(env, fin, ContextOf(st), Walk(true, s).value, fin.out[|st.out|..])
    decreases |s|
  {
    hide SameMeaning, Grows, RecordsPlaced;
    var fin := Compile(env, st, s).value;
    WalkEncodeAll(fin.out);
    if s != [] {
      var size := PacketSize(s[0]);
      var p, rest := Decode(true, s[..size]), s[size..];
      var st' := Step(env, st, p).value;
      StepGrows(env, st, p);
      StepPlaces(env, st, p);
      CompileGrows(env, st', rest);
      RewriteKeepsMeaning(env, st', rest);
      var ps := Walk(true, s).value;
      assert ps[0] == p && ps[1..] == Walk(true, rest).value;
      if !p.GemHandles? {
        StepMeaning(env, st, p, fin);
        var outs := fin.out[|st.out|..];
        assert st'.out == fin.out[..|st'.out|];
        assert outs[0] == st'.out[|st.out|] && outs[1..] == fin.out[|st'.out|..];
      }
    }
  }
}
