/** Which buffer a draw of a binner list reads, through the handle named before it. */
module HandleMeaning {
  import opened Bytes
  import opened Packets
  import opened Buffers
  import opened BinList
  import opened BinMeaning

  // ---- Where a packet of the input ends up ----

  /** The context of packet m. */
  function ContextAt(env: BinEnv, ctx: Context, ins: seq<Packet>, m: nat): Context
    requires ValidEnv(env) && m <= |ins|
    decreases m
  {
    if m == 0 then ctx else ContextAt(env, After(env, ctx, ins[0]), ins[1..], m - 1)
  }

  /** Packet m, if it is not GEM_HANDLES, comes out behind the ones before it that are not. */
  lemma {:induction false} FaithfulIn(env: BinEnv, fin: BinState, ctx: Context, ins: seq<Packet>, outs: seq<Packet>,
                                      m: nat)
    requires ValidEnv(env) && Faithful(env, fin, ctx, ins, outs) && m < |ins| && !ins[m].GemHandles?
    ensures var j := m - GemCount(ins[..m]);
            0 <= j < |outs| && SameMeaning(env, fin, ContextAt(env, ctx, ins, m), ins[m], outs[j])
    decreases |ins|
  {
    hide SameMeaning, After;
    if m > 0 {
      var rest := if ins[0].GemHandles? then outs else outs[1..];
      FaithfulIn(env, fin, After(env, ctx, ins[0]), ins[1..], rest, m - 1);
      assert ins[..m][1..] == ins[1..][..m - 1];
    }
  }

  /** Packet g is the last GEM_HANDLES before packet m. */
  predicate LastNamed(ins: seq<Packet>, g: nat, m: nat) {
    g < m < |ins| && ins[g].GemHandles? && forall k :: g < k < m ==> !ins[k].GemHandles?
  }

  lemma {:induction false} NamedContext(env: BinEnv, ctx: Context, ins: seq<Packet>, g: nat, m: nat)
    requires ValidEnv(env) && LastNamed(ins, g, m)
    ensures var c := ContextAt(env, ctx, ins, m);
            c.hindex0 == ins[g].hindex0 && c.bo0 == BusAddr(env.handles, ins[g].hindex0)
    decreases m
  {
    if g > 0 {
      NamedContext(env, After(env, ctx, ins[0]), ins[1..], g - 1, m - 1);
    } else {
      SameContext(env, After(env, ctx, ins[0]), ins[1..], m - 1);
    }
  }

  lemma {:induction false} SameContext(env: BinEnv, ctx: Context, ins: seq<Packet>, m: nat)
    requires ValidEnv(env) && m <= |ins| && forall k :: 0 <= k < m ==> !ins[k].GemHandles?
    ensures var c := ContextAt(env, ctx, ins, m); c.hindex0 == ctx.hindex0 && c.bo0 == ctx.bo0
    decreases m
  {
    if m > 0 {
      SameContext(env, After(env, ctx, ins[0]), ins[1..], m - 1);
    }
  }

  /** The index scratch used so far is what the packets before needed. */
  lemma {:induction false} UsedContext(env: BinEnv, ctx: Context, ins: seq<Packet>, m: nat)
    requires ValidEnv(env) && m <= |ins|
    ensures ContextAt(env, ctx, ins, m).used == ctx.used + IndexNeed(ins[..m])
    decreases m
  {
    if m > 0 {
      UsedContext(env, After(env, ctx, ins[0]), ins[1..], m - 1);
      assert ins[..m][1..] == ins[1..][..m - 1];
    }
  }

  // ---- Draws ----

  /** Index j at byte at of a big-endian buffer, and of the little-endian scratch. */
  predicate SameIndex(mem: seq<byte>, from: nat, scratch: seq<byte>, at: nat, j: nat) {
    && from + 2 * j + 1 < |mem| && at + 2 * j + 1 < |scratch|
    && scratch[at + 2 * j] == mem[from + 2 * j + 1] && scratch[at + 2 * j + 1] == mem[from + 2 * j]
  }

  /**
   * Indexed draw m of an accepted list, under GEM_HANDLES with first index i: the
   * buffer is the table entry the list has at i. An 8-bit draw comes out with its
   * bus address plus the draw's offset, a 16-bit draw with the address of scratch
   * bytes that are its index bytes, the two of every index exchanged.
   */
  lemma DrawReadsNamed(env: BinEnv, st: BinState, s: seq<byte>, g: nat, m: nat)
    requires ValidEnv(env) && ValidState(env, st) && BinMeaning.RecordsPlaced(env, st) && Compile(env, st, s).Some?
    requires Walk(true, s).Some? && LastNamed(Walk(true, s).value, g, m) && Walk(true, s).value[m].Indexed?
    ensures var fin, ins := Compile(env, st, s).value, Walk(true, s).value;
            var list, table := env.handles.list, env.handles.table;
            var i, p, j := ins[g].hindex0, ins[m], |st.out| + m - GemCount(ins[..m]);
            && |st.out| <= j < |fin.out| && fin.out[j].Indexed?
            && (!IsU16(p.mode) ==> fin.out[j].offset == Wrap(BusOf(list, table, i) + p.offset))
            && (IsU16(p.mode) ==>
                 && Live(list, table, i)
                 && var at := st.used + IndexNeed(ins[..m]);
                 && fin.out[j].offset == Wrap(env.scratchBus + at)
                 && forall n: nat :: n < p.count ==> SameIndex(table[list[i]].mem, p.offset, fin.scratch, at, n))
  {
    hide Compile, Walk, Faithful, EncodeAll, IndicesMatch, MaxIndex;
    RewriteKeepsMeaning(env, st, s);
    var fin, ins := Compile(env, st, s).value, Walk(true, s).value;
    var c, p := ContextAt(env, ContextOf(st), ins, m), ins[m];
    var outs, j := fin.out[|st.out|..], m - GemCount(ins[..m]);
    FaithfulIn(env, fin, ContextOf(st), ins, outs, m);
    NamedContext(env, ContextOf(st), ins, g, m);
    UsedContext(env, ContextOf(st), ins, m);
    ResolveExactly(env.handles, ins[g].hindex0);
    assert outs[j] == fin.out[|st.out| + j];
    if IsU16(p.mode) {
      var mem := Resolve(env.handles, c.hindex0).value.mem;
      forall n: nat | n < p.count
        ensures SameIndex(mem, p.offset, fin.scratch, c.used, n)
      {
        MatchBytes(fin.scratch, c.used, mem, p.offset, p.count, outs[j].maxIndex, n);
      }
    }
  }

  lemma MatchBytes(scratch: seq<byte>, at: nat, mem: seq<byte>, offset: nat, count: nat, maxIndex: u32, n: nat)
    requires offset + 2 * count <= |mem| && at + 2 * count <= |scratch| && n < count
    requires IndicesMatch(scratch, at, mem, offset, count, maxIndex)
    ensures SameIndex(mem, offset, scratch, at, n)
  {
    assert IndexAgrees(scratch, at, mem, offset, n);
  }
}
