/** Which vertices a draw asks for, and how many the record in force at it is sized for. */
module DrawMeaning {
  import opened Bytes
  import opened Packets
  import opened Buffers
  import opened BinList
  import opened BinMeaning

  // ---- The record in force ----

  /** Shader states among the first m packets. */
  function Shaders(ps: seq<Packet>, m: nat): nat
    requires m <= |ps|
  {
    if m == 0 then 0 else Shaders(ps, m - 1) + (if ps[m - 1].ShaderState? then 1 else 0)
  }

  lemma {:induction false} ShadersFront(ps: seq<Packet>, m: nat)
    requires 0 < m <= |ps|
    ensures Shaders(ps, m) == (if ps[0].ShaderState? then 1 else 0) + Shaders(ps[1..], m - 1)
  {
    if m > 1 {
      ShadersFront(ps, m - 1);
    }
  }

  lemma {:induction false} ShadersPrefix(ps: seq<Packet>, qs: seq<Packet>, m: nat)
    requires ps <= qs && m <= |ps|
    ensures Shaders(ps, m) == Shaders(qs, m)
  {
    if m > 0 {
      ShadersPrefix(ps, qs, m - 1);
    }
  }

  lemma {:induction false} ShadersGrow(ps: seq<Packet>, m: nat, n: nat)
    requires m <= n <= |ps|
    ensures Shaders(ps, m) <= Shaders(ps, n)
  {
    if m < n {
      ShadersGrow(ps, m, n - 1);
    }
  }

  /** A packet of a faithful list has the meaning of one of the originals, under the record in force there. */
  lemma {:induction false} FaithfulAt(env: BinEnv, fin: BinState, ctx: Context, ins: seq<Packet>, outs: seq<Packet>,
                                      m: nat)
    returns (p: Packet, c: Context)
    requires ValidEnv(env) && Faithful(env, fin, ctx, ins, outs) && m < |outs|
    ensures SameMeaning(env, fin, c, p, outs[m]) && c.shaders == ctx.shaders + Shaders(outs, m)
    decreases |ins|
  {
    hide SameIndices, Covered;
    if ins[0].GemHandles? {
      p, c := FaithfulAt(env, fin, After(env, ctx, ins[0]), ins[1..], outs, m);
    } else if m == 0 {
      p, c := ins[0], ctx;
    } else {
      p, c := FaithfulAt(env, fin, After(env, ctx, ins[0]), ins[1..], outs[1..], m - 1);
      ShadersFront(outs, m);
    }
  }

  // ---- What a draw asks for ----

  predicate Drawing(q: Packet) {
    (q.Indexed? || q.ArrayPrim?) && q.count > 0
  }

  /** What the V3D reads as index j of the 16-bit draw q. */
  function DrawnIndex(env: BinEnv, fin: BinState, q: Packet, j: nat): Option<nat>
    requires q.Indexed?
  {
    var at := q.offset - env.scratchBus + 2 * j;
    if 0 <= at && at + 2 <= |fin.scratch| then Some(Le16(fin.scratch, at)) else None
  }

  /** A vertex the draw q asks for; the indices of an 8-bit draw are as its packet bounds them. */
  predicate Draws(env: BinEnv, fin: BinState, q: Packet, x: nat) {
    match q
    case Indexed(mode, count, _, maxIndex) =>
      if IsU16(mode) then exists j: nat :: j < count && DrawnIndex(env, fin, q, j) == Some(x)
      else 0 < count && x <= maxIndex
    case ArrayPrim(_, count, first) => InArray(count, first, x)
    case _ => false
  }

  predicate InArray(count: u32, first: u32, x: nat) {
    first <= x < first + count
  }

  /** The vertices of an array draw are numbered within 32 bits. */
  predicate ArrayFits(q: Packet) {
    q.ArrayPrim? && q.count > 0 ==> q.first + q.count <= 0x1_0000_0000
  }

  /** The maximum the driver notes is one exactly then. */
  lemma ArrayMaxExactly(count: u32, first: u32)
    ensures (forall x: nat :: InArray(count, first, x) ==> x <= ArrayMax(count, first))
       <==> count == 0 || first + count <= 0x1_0000_0000
  {
    if count > 0 {
      assert InArray(count, first, first + count - 1);
    }
  }

  /** A draw with a count asks for something: its 16-bit indices are in the scratch. */
  lemma DrawsSome(env: BinEnv, fin: BinState, c: Context, p: Packet, q: Packet)
    requires ValidEnv(env) && env.scratchBus + |fin.scratch| <= U32_MAX && SameMeaning(env, fin, c, p, q)
    ensures (exists x: nat :: Draws(env, fin, q, x)) <==> Drawing(q)
  {
    if Drawing(q) {
      var x: nat := if q.ArrayPrim? then q.first else 0;
      if q.Indexed? && IsU16(q.mode) {
        WrapSmall(env.scratchBus + c.used);
        x := Le16(fin.scratch, c.used);
        assert DrawnIndex(env, fin, q, 0) == Some(x);
      }
      assert Draws(env, fin, q, x);
    }
  }

  /** The record in force is sized for every vertex of the draw if and only if an array draw stays within 32 bits. */
  lemma DrawCoveredExactly(env: BinEnv, fin: BinState, c: Context, p: Packet, q: Packet)
    requires ValidEnv(env) && env.scratchBus + |fin.scratch| <= U32_MAX && SameMeaning(env, fin, c, p, q)
    requires Drawing(q) && c.shaders > 0
    ensures c.shaders <= |fin.maxes|
    ensures (forall x: nat :: Draws(env, fin, q, x) ==> x <= fin.maxes[c.shaders - 1]) <==> ArrayFits(q)
  {
    if q.ArrayPrim? {
      ArrayMaxExactly(q.count, q.first);
      assert Draws(env, fin, q, q.first + q.count - 1);
    } else if IsU16(q.mode) {
      var mem := Resolve(env.handles, c.hindex0).value.mem;
      WrapSmall(env.scratchBus + c.used);
      forall x: nat | Draws(env, fin, q, x)
        ensures x <= fin.maxes[c.shaders - 1]
      {
        var j: nat :| j < q.count && DrawnIndex(env, fin, q, j) == Some(x);
        assert IndexAgrees(fin.scratch, c.used, mem, p.offset, j);
      }
    }
  }

  /** An array draw that leaves 32 bits asks for a vertex no 32-bit count reaches. */
  lemma DrawnPast(env: BinEnv, fin: BinState, q: Packet)
    ensures Drawing(q) && !ArrayFits(q) ==> exists x: nat :: Draws(env, fin, q, x) && x > U32_MAX
  {
    if Drawing(q) && !ArrayFits(q) {
      assert Draws(env, fin, q, q.first + q.count - 1);
    }
  }

  // ---- The largest index of a record ----

  /** The largest index the driver notes for a packet. */
  function Noted(q: Packet): u32 {
    match q
    case Indexed(_, _, _, maxIndex) => maxIndex
    case ArrayPrim(_, count, first) => ArrayMax(count, first)
    case _ => 0
  }

  /** Record k is in force at packet m. */
  predicate Under(ps: seq<Packet>, k: nat, m: nat) {
    m < |ps| && Shaders(ps, m) == k + 1
  }

  /** The maximum of every record bounds what its packets note, and is 0 or attained by one of them. */
  ghost predicate Maxed(st: BinState) {
    && |st.maxes| == |st.lows| == Shaders(st.out, |st.out|)
    && (forall k: nat, m: nat :: k < |st.maxes| && Under(st.out, k, m) ==> Noted(st.out[m]) <= st.maxes[k])
    && (forall k: nat :: k < |st.maxes| && st.maxes[k] > 0 ==>
          exists m: nat :: Under(st.out, k, m) && Noted(st.out[m]) == st.maxes[k])
  }

  /** One more packet and what is noted for it. */
  predicate Snoc(st: BinState, q: Packet, st': BinState) {
    && st'.out == st.out + [q] && |st'.lows| == |st'.maxes|
    && st'.maxes == if q.ShaderState? then st.maxes + [0] else NoteMax(st.maxes, Noted(q))
  }

  lemma SnocBounds(st: BinState, q: Packet, st': BinState, k: nat, m: nat)
    requires Maxed(st) && Snoc(st, q, st') && k < |st'.maxes| && Under(st'.out, k, m)
    ensures Noted(st'.out[m]) <= st'.maxes[k]
  {
    hide ArrayMax, Shaders;
    var n := |st.out|;
    ShadersPrefix(st.out, st'.out, m);
    if m < n {
      ShadersGrow(st.out, m, n);
      assert Under(st.out, k, m);
    }
  }

  lemma SnocReaches(st: BinState, q: Packet, st': BinState, k: nat)
    requires Maxed(st) && Snoc(st, q, st') && k < |st'.maxes| && st'.maxes[k] > 0
    ensures exists m: nat :: Under(st'.out, k, m) && Noted(st'.out[m]) == st'.maxes[k]
  {
    hide ArrayMax, Shaders;
    var n := |st.out|;
    if k < |st.maxes| && st'.maxes[k] == st.maxes[k] {
      var m: nat :| Under(st.out, k, m) && Noted(st.out[m]) == st.maxes[k];
      ShadersPrefix(st.out, st'.out, m);
      assert Under(st'.out, k, m);
    } else {
      ShadersPrefix(st.out, st'.out, n);
      assert Under(st'.out, k, n);
    }
  }

  lemma SnocCount(st: BinState, q: Packet, st': BinState)
    requires Maxed(st) && Snoc(st, q, st')
    ensures |st'.maxes| == |st'.lows| == Shaders(st'.out, |st'.out|)
  {
    ShadersPrefix(st.out, st'.out, |st.out|);
  }

  lemma MaxedSnoc(st: BinState, q: Packet, st': BinState)
    requires Maxed(st) && Snoc(st, q, st')
    ensures Maxed(st')
  {
    hide Noted, NoteMax, Shaders;
    SnocCount(st, q, st');
    forall k: nat, m: nat | k < |st'.maxes| && Under(st'.out, k, m)
      ensures m < |st'.out| && Noted(st'.out[m]) <= st'.maxes[k]
    {
      SnocBounds(st, q, st', k, m);
    }
    forall k: nat | k < |st'.maxes| && st'.maxes[k] > 0
      ensures exists m: nat :: Under(st'.out, k, m) && Noted(st'.out[m]) == st'.maxes[k]
    {
      SnocReaches(st, q, st', k);
    }
  }

  lemma StepMaxed(env: BinEnv, st: BinState, p: Packet)
    requires ValidEnv(env) && ValidState(env, st) && Sized(p) && Step(env, st, p).Some? && Maxed(st)
    ensures Maxed(Step(env, st, p).value)
  {
    hide Maxed;
    var st' := Step(env, st, p).value;
    if p.GemHandles? {
      assert Maxed(st') by {
        MaxedSame(st, st');
      }
    } else {
      var q := st'.out[|st.out|];
      MaxedSnoc(st, q, st');
    }
  }

  lemma MaxedSame(st: BinState, st': BinState)
    requires Maxed(st) && st'.out == st.out && st'.maxes == st.maxes && st'.lows == st.lows
    ensures Maxed(st')
  {
  }

  /** After every accepted list the maximum of a record is the largest index noted under it. */
  lemma {:induction false} CompileMaxed(env: BinEnv, st: BinState, s: seq<byte>)
    requires ValidEnv(env) && ValidState(env, st) && Maxed(st) && Compile(env, st, s).Some?
    ensures Maxed(Compile(env, st, s).value)
    decreases |s|
  {
    hide Maxed;
    if s != [] {
      var size := PacketSize(s[0]);
      StepMaxed(env, st, Decode(true, s[..size]));
      CompileMaxed(env, Step(env, st, Decode(true, s[..size])).value, s[size..]);
    }
  }

  // ---- Two lists that come out short ----

  /** A shader state with one attribute, then an array draw of the vertices 2^32 - 1 and 2^32. */
  const WRAPPING: seq<byte> := [64, 1, 0, 0, 0, 33, 4, 0, 0, 0, 2, 255, 255, 255, 255]

  /** The same shader state, then an 8-bit draw whose packet gives 2^32 - 1 as its largest index. */
  const FULL: seq<byte> := [64, 1, 0, 0, 0, 32, 4, 0, 0, 0, 2, 0, 0, 0, 0, 255, 255, 255, 255]

  /** s is that shader state and then a draw p whose indices are not copied. */
  predicate TwoPackets(s: seq<byte>, p: Packet) {
    && |s| > 5 && s[..5] == [64, 1, 0, 0, 0] && |s[5..]| == PacketSize(s[5]) && Decode(true, s[5..]) == p
    && (p.ArrayPrim? || (p.Indexed? && !IsU16(p.mode)))
  }

  lemma WrappingIs()
    ensures TwoPackets(WRAPPING, ArrayPrim(4, 2, 0xFFFF_FFFF))
  {
    var s := WRAPPING[5..];
    assert s == [33, 4, 0, 0, 0, 2, 255, 255, 255, 255];
    assert ReadBe(s, 2) == 2 && ReadBe(s, 6) == 0xFFFF_FFFF;
  }

  lemma FullIs()
    ensures TwoPackets(FULL, Indexed(4, 2, 0, 0xFFFF_FFFF))
  {
    var s := FULL[5..];
    assert s == [32, 4, 0, 0, 0, 2, 0, 0, 0, 0, 255, 255, 255, 255];
    assert ReadBe(s, 2) == 2 && ReadBe(s, 6) == 0 && ReadBe(s, 10) == 0xFFFF_FFFF;
  }

  /** Such a list is accepted, with one record whose maximum is what is noted for the draw. */
  lemma CompileTwo(env: BinEnv, st: BinState, s: seq<byte>, p: Packet)
    requires ValidEnv(env) && ValidState(env, st) && env.slotsMax > 0 && st.lows == [] && st.out == []
    requires TwoPackets(s, p)
    ensures Compile(env, st, s).Some?
    ensures var fin := Compile(env, st, s).value;
            && fin.lows == [1] && |fin.out| == 2 && Shaders(fin.out, 1) == 1
            && fin.maxes == [Noted(p)] && SameDraw(p, fin.out[1])
  {
    var ss := Decode(true, s[..5]);
    assert ss == ShaderState(1) by {
      assert ReadLe(s[..5], 1) == 1;
    }
    var st1 := Step(env, st, ss).value;
    assert st1.lows == [1] && st1.maxes == [0] && |st1.out| == 1 && st1.out[0].ShaderState?;
    var st2 := Step(env, st1, p).value;
    assert s[5..][..PacketSize(s[5])] == s[5..];
    assert s[5..][PacketSize(s[5])..] == [];
    assert Compile(env, st2, []) == Some(st2);
    assert Compile(env, st1, s[5..]) == Compile(env, st2, []);
  }

  predicate SameDraw(p: Packet, q: Packet) {
    if p.Indexed? then q.Indexed? && q.mode == p.mode && q.count == p.count && q.maxIndex == p.maxIndex else q == p
  }
}
