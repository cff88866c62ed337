/** relocate_shader_recs over real buffers. */
module ShaderExec {
  import opened Bytes
  import opened Buffers
  import opened BinList
  import opened BinMeaning
  import opened ShaderRecs
  import opened RecordMeaning
  import opened RecordSizing
  import opened VertexSwap

  // ---- Vertex copies ----

  /** The inner loop: reverse the words of the vertex at `at`, in place. */
  method SwapVertexInPlace(a: array<byte>, at: nat, width: nat)
    requires at + 4 * (width / 4) <= a.Length
    modifies a
    ensures a[..] == SwapWords(old(a[..]), at, width / 4)
  {
    var word := 0;
    while word + 4 <= width
      invariant word % 4 == 0 && 0 <= word <= 4 * (width / 4)
      invariant a[..] == SwapWords(old(a[..]), at, word / 4)
    {
      var p := at + word;
      a[p], a[p + 3] := a[p + 3], a[p];
      a[p + 1], a[p + 2] := a[p + 2], a[p + 1];
      word := word + 4;
    }
  }

  /** Copy a vertex range into the scratch and swap it vertex by vertex. */
  method CopyVertices(mem: seq<byte>, from: nat, count: nat, stride: nat, width: nat, a: array<byte>, at: nat)
    requires Fits(Copy(a[..], at, mem, from, stride, width / 4, count))
    modifies a
    ensures a[..] == Copied(Copy(old(a[..]), at, mem, from, stride, width / 4, count))
  {
    hide Splice, SwapWords;
    var n := count * stride;
    LeadIs(stride, count);
    CopyMem(mem[from..from + n], a, at);
    ghost var s := a[..];
    var v, off := 0, 0;
    while v < count
      invariant 0 <= v <= count && off == Lead(stride, v) <= n
      invariant a[..] == SwapAll(s, at, stride, width / 4, v)
    {
      LeadGrows(stride, v, count);
      SwapVertexInPlace(a, at + off, width);
      v, off := v + 1, off + stride;
    }
  }

  // ---- Uniform streams ----

  /** Words as the QPU reads them. */
  function Serialize(w: seq<u32>): (s: seq<byte>)
    ensures |s| == 4 * |w|
  {
    if w == [] then [] else Serialize(w[..|w| - 1]) + LeBytes(w[|w| - 1])
  }

  lemma {:induction false} SerializeAppend(w: seq<u32>, v: seq<u32>)
    ensures Serialize(w + v) == Serialize(w) + Serialize(v)
  {
    hide LeBytes;
    if v == [] {
      assert w + v == w && Serialize(w) + [] == Serialize(w);
    } else {
      var front, last := v[..|v| - 1], v[|v| - 1];
      SerializeAppend(w, front);
      assert (w + v)[..|w + v| - 1] == w + front && (w + v)[|w + v| - 1] == last;
      assert (Serialize(w) + Serialize(front)) + LeBytes(last) == Serialize(w) + (Serialize(front) + LeBytes(last));
    }
  }

  lemma {:induction false} SerializeUpdate(w: seq<u32>, d: nat, x: u32)
    requires d < |w|
    ensures Serialize(w[d := x]) == Splice(Serialize(w), 4 * d, LeBytes(x))
  {
    hide LeBytes;
    var front, last := w[..|w| - 1], w[|w| - 1];
    if d == |w| - 1 {
      assert w[d := x][..|w| - 1] == front;
    } else {
      SerializeUpdate(front, d, x);
      assert w[d := x][..|w| - 1] == front[d := x];
    }
  }

  /** The QPU reads back word d of a stream. */
  lemma {:induction false} SerializedWord(w: seq<u32>, d: nat)
    requires d < |w|
    ensures ReadLe(Serialize(w), 4 * d) == w[d]
  {
    hide LeBytes, ReadLe;
    var front := w[..|w| - 1];
    if d == |w| - 1 {
      ReadLeAt(Serialize(front), LeBytes(w[d]), [], w[d]);
      assert Serialize(front) + LeBytes(w[d]) + [] == Serialize(w);
    } else {
      SerializedWord(front, d);
      ReadPrefix(Serialize(front), LeBytes(w[|w| - 1]), 4 * d);
    }
  }

  lemma ReadPrefix(a: seq<byte>, b: seq<byte>, i: nat)
    requires i + 4 <= |a|
    ensures ReadLe(a + b, i) == ReadLe(a, i)
  {
  }

  /** Store one word of a stream that starts at word base. */
  method PutWord(uni: array<byte>, ghost was: seq<byte>, base: nat, ghost w: seq<u32>, d: nat, x: u32)
    requires d < |w| && 4 * (base + |w|) <= uni.Length == |was|
    requires uni[..] == Splice(was, 4 * base, Serialize(w))
    modifies uni
    ensures uni[..] == Splice(was, 4 * base, Serialize(w[d := x]))
  {
    hide LeBytes, Splice, Serialize;
    PutLe(uni, 4 * (base + d), x);
    SpliceInside(was, 4 * base, Serialize(w), 4 * d, LeBytes(x));
    SerializeUpdate(w, d, x);
  }

  /** The uniform words of one stage: data serialised, then textures and stream addresses patched. */
  method WriteStream(uni: array<byte>, base: nat, h: Handles, bo: Bo, tex: seq<u32>, data: seq<u32>, start: u32)
    requires ValidHandles(h) && |tex| == |bo.samples| && 4 * (base + |data|) <= uni.Length
    modifies uni
    ensures uni[..] == Splice(old(uni[..]), 4 * base, Serialize(StreamWords(h, bo, tex, data, start)))
  {
    hide Splice, Serialize, LeBytes;
    ghost var was := uni[..];
    WriteWords(uni, base, data);
    var t := 0;
    while t < |tex|
      invariant 0 <= t <= |tex|
      invariant uni[..] == Splice(was, 4 * base, Serialize(PatchTextures(h, bo.samples, tex, data, t)))
    {
      var p0 := P0Slot(bo.samples[t], |data|);
      if p0.Some? {
        var bus := BusAddr(h, tex[t]);
        if bus != 0 {
          PutWord(uni, was, base, PatchTextures(h, bo.samples, tex, data, t), p0.value,
              Wrap((bus as int) + data[p0.value]));
        }
      }
      t := t + 1;
    }
    ghost var w := PatchTextures(h, bo.samples, tex, data, t);
    var u := 0;
    while u < |bo.uniformAddrs|
      invariant 0 <= u <= |bo.uniformAddrs|
      invariant uni[..] == Splice(was, 4 * base, Serialize(PatchAddrs(w, bo.uniformAddrs, start, u)))
    {
      if bo.uniformAddrs[u] < |data| {
        PutWord(uni, was, base, PatchAddrs(w, bo.uniformAddrs, start, u), bo.uniformAddrs[u], start);
      }
      u := u + 1;
    }
  }

  method WriteWords(uni: array<byte>, base: nat, data: seq<u32>)
    requires 4 * (base + |data|) <= uni.Length
    modifies uni
    ensures uni[..] == Splice(old(uni[..]), 4 * base, Serialize(data))
  {
    hide LeBytes, Splice;
    ghost var was := uni[..];
    var d := 0;
    SpliceNothing(was, 4 * base);
    while d < |data|
      invariant 0 <= d <= |data|
      invariant uni[..] == Splice(was, 4 * base, Serialize(data[..d]))
    {
      PutLe(uni, 4 * (base + d), data[d]);
      SpliceJoin(was, 4 * base, Serialize(data[..d]), LeBytes(data[d]));
      assert data[..d + 1] == data[..d] + [data[d]];
      d := d + 1;
    }
    assert data[..d] == data;
  }

  lemma SpliceNothing(s: seq<byte>, at: nat)
    requires at <= |s|
    ensures Splice(s, at, []) == s
  {
  }

  // ---- Where the results lie ----

  predicate PacketsPlaced(out: seq<byte>, lows: seq<u32>, recs: seq<seq<byte>>)
    requires |recs| <= |lows|
  {
    forall k: nat :: k < |recs| ==> PacketPlaced(out, lows, recs, k)
  }

  predicate PacketPlaced(out: seq<byte>, lows: seq<u32>, recs: seq<seq<byte>>, k: nat)
    requires k < |recs| <= |lows|
  {
    Holds(out, RecordOffset(lows, k), recs[k])
  }

  predicate Holds(s: seq<byte>, at: nat, b: seq<byte>) {
    at + |b| <= |s| && s[at..at + |b|] == b
  }

  lemma HoldsWritten(s: seq<byte>, at: nat, b: seq<byte>)
    requires at + |b| <= |s|
    ensures Holds(Splice(s, at, b), at, b)
  {
    SplicePrefix(s, at, b);
  }

  lemma HoldsKept(s: seq<byte>, at: nat, b: seq<byte>, lo: nat, c: seq<byte>)
    requires Holds(s, lo, c) && lo + |c| <= at && at + |b| <= |s|
    ensures Holds(Splice(s, at, b), lo, c)
  {
    assert Splice(s, at, b)[lo..lo + |c|] == s[lo..lo + |c|];
  }

  lemma RecordAdded(out: seq<byte>, lows: seq<u32>, recs: seq<seq<byte>>, p: seq<byte>)
    requires |recs| < |lows| && PacketsPlaced(out, lows, recs)
    requires forall k: nat :: k < |recs| ==> |recs[k]| == RecordSize(lows[k])
    requires RecordOffset(lows, |recs|) + |p| <= |out|
    ensures PacketsPlaced(Splice(out, RecordOffset(lows, |recs|), p), lows, recs + [p])
  {
    hide Splice;
    var at, more := RecordOffset(lows, |recs|), recs + [p];
    forall k: nat | k < |more|
      ensures PacketPlaced(Splice(out, at, p), lows, more, k)
    {
      if k < |recs| {
        assert PacketPlaced(out, lows, recs, k);
        RecordsApart(lows, k, |recs|);
        HoldsKept(out, at, p, RecordOffset(lows, k), recs[k]);
      } else {
        HoldsWritten(out, at, p);
      }
    }
  }

  lemma {:induction false} RecordsApart(lows: seq<u32>, k: nat, n: nat)
    requires k < n <= |lows|
    ensures RecordOffset(lows, k) + RecordSize(lows[k]) <= RecordOffset(lows, n)
  {
    if k < n - 1 {
      RecordsApart(lows, k, n - 1);
    }
  }

  predicate WordsPlaced(uni: seq<byte>, words: seq<u32>) {
    Holds(uni, 0, Serialize(words))
  }

  lemma StreamAdded(uni: seq<byte>, words: seq<u32>, more: seq<u32>)
    requires WordsPlaced(uni, words) && 4 * (|words| + |more|) <= |uni|
    ensures WordsPlaced(Splice(uni, 4 * |words|, Serialize(more)), words + more)
  {
    hide Splice, Serialize, Holds;
    SerializeAppend(words, more);
    HoldsAppend(uni, Serialize(words), Serialize(more));
  }

  lemma HoldsAppend(s: seq<byte>, a: seq<byte>, b: seq<byte>)
    requires Holds(s, 0, a) && |a| + |b| <= |s|
    ensures Holds(Splice(s, |a|, b), 0, a + b)
  {
    hide Splice, Holds;
    HoldsKept(s, |a|, b, 0, a);
    HoldsWritten(s, |a|, b);
    HoldsJoin(Splice(s, |a|, b), 0, a, b);
  }

  lemma HoldsJoin(t: seq<byte>, at: nat, a: seq<byte>, b: seq<byte>)
    requires Holds(t, at, a) && Holds(t, at + |a|, b)
    ensures Holds(t, at, a + b)
  {
    assert t[at..at + |a + b|] == t[at..at + |a|] + t[at + |a|..at + |a| + |b|];
  }

  // ---- The loop ----

  class RelocExec {
    const env: RelocEnv
    const out: array<byte>
    const uni: array<byte>
    const attr: array<byte>

    var srcOff: nat
    var dstOff: nat
    var uniSrc: nat
    var uniDst: nat
    var attrUsed: nat
    ghost var res: Reloc

    ghost predicate Shape()
    {
      && ValidReloc(env)
      && out != uni && out != attr && uni != attr
      && out.Length >= |env.rec| && uni.Length == 4 * |env.uniforms| && attr.Length == |env.scratch|
    }

    ghost predicate Valid()
      reads this, out, uni, attr
    {
      && Shape() && ValidResult(env, res)
      && srcOff == SourceOffset(env.lows, |res.recs|) && dstOff == RecordOffset(env.lows, |res.recs|)
      && uniSrc == res.taken && uniDst == |res.words| && attrUsed == res.used && attr[..] == res.attr
      && PacketsPlaced(out[..], env.lows, res.recs)
      && WordsPlaced(uni[..], res.words)
    }

    constructor (env: RelocEnv, out: array<byte>, uni: array<byte>, attr: array<byte>)
      requires ValidReloc(env) && out != uni && out != attr && uni != attr
      requires out.Length >= |env.rec| && uni.Length == 4 * |env.uniforms| && attr[..] == env.scratch
      ensures Valid() && res == Reloc([], [], env.scratch, 0, 0) && this.env == env
      ensures this.out == out && this.uni == uni && this.attr == attr
    {
      this.env, this.out, this.uni, this.attr := env, out, uni, attr;
      srcOff, dstOff, uniSrc, uniDst, attrUsed := 0, 0, 0, 0, 0;
      res := Reloc([], [], env.scratch, 0, 0);
    }

    /** One shader stage of record k, whose packet is being built at dstOff. */
    method RelocateStage(k: nat, i: nat, ghost st: Stage, ghost was: seq<byte>) returns (ok: bool)
      requires Shape() && k < |env.lows| && RecordInSource(env, k) && i < 3
      requires |st.packet| == RecordSize(env.lows[k]) && dstOff + |st.packet| <= out.Length == |was|
      requires out[..] == Splice(was, dstOff, st.packet)
      requires uniSrc == st.taken && uniDst == |st.words| <= st.taken && WordsPlaced(uni[..], st.words)
      modifies this`uniSrc, this`uniDst, out, uni
      ensures ok == StepStage(env, k, st, i).Some?
      ensures ok ==> var st' := StepStage(env, k, st, i).value;
                && out[..] == Splice(was, dstOff, st'.packet)
                && uniSrc == st'.taken && uniDst == |st'.words| && WordsPlaced(uni[..], st'.words)
    {
      hide Splice, WordsPlaced, LeBytes, StreamWords, ReadLe;
      var hindex, codeOff, uniOff := HandleIndex(env, k, i), CodeField(i), UniformField(i);
      var code := Wrap((BusAddr(env.handles, hindex) as int) + ReadLe(PacketBytes(env, k), codeOff));
      PutLe(out, dstOff + codeOff, code);
      SpliceInside(was, dstOff, st.packet, codeOff, LeBytes(code));
      var bo := Resolve(env.handles, hindex);
      if bo.None? {
        return false;
      }
      var n, m := |bo.value.samples|, bo.value.uniformsSize / 4;
      var start := Wrap((env.uniformsBus as int) + uniDst * 4);
      PutLe(out, dstOff + uniOff, start);
      SpliceInside(was, dstOff, Splice(st.packet, codeOff, LeBytes(code)), uniOff, LeBytes(start));
      if uniSrc + n + m > |env.uniforms| {
        return false;
      }
      if uniDst + m > |env.uniforms| {
        assert false;
      }
      var tex, data := env.uniforms[uniSrc..uniSrc + n], env.uniforms[uniSrc + n..uniSrc + n + m];
      WriteStream(uni, uniDst, env.handles, bo.value, tex, data, start);
      StreamAdded(old(uni[..]), st.words, StreamWords(env.handles, bo.value, tex, data, start));
      uniSrc, uniDst := uniSrc + n + m, uniDst + m;
      ok := true;
    }

    /** One vertex attribute of record k. */
    method RelocateAttr(k: nat, i: nat, ghost st: Attrs, ghost was: seq<byte>) returns (ok: bool)
      requires Shape() && k < |env.lows| && RecordInSource(env, k) && i < AttrCount(env.lows[k])
      requires ValidAttrs(env, k, st) && dstOff + |st.packet| <= out.Length == |was|
      requires out[..] == Splice(was, dstOff, st.packet) && attrUsed == st.used && attr[..] == st.attr
      modifies this`attrUsed, out, attr
      ensures ok == StepAttr(env, k, st, i).Some?
      ensures ok ==> var st' := StepAttr(env, k, st, i).value;
                && out[..] == Splice(was, dstOff, st'.packet)
                && attrUsed == st'.used && attr[..] == st'.attr
    {
      hide Splice, LeBytes, ReadLe, AttrRangeOk, AttrCopy, Copied, PacketBytes;
      var vboOffset := ReadLe(PacketBytes(env, k), AttrField(i));
      var addr := 0;
      if HandleIndex(env, k, 3 + i) < |env.handles.list| {
        ok, addr := CopyAttr(k, i);
        if !ok {
          return;
        }
      }
      var value := AttrAddress(env, addr, vboOffset);
      PutLe(out, dstOff + AttrField(i), value);
      SpliceInside(was, dstOff, st.packet, AttrField(i), LeBytes(value));
      ok := true;
    }

    /** Copy an attribute's vertices behind the copies made so far. */
    method CopyAttr(k: nat, i: nat) returns (ok: bool, addr: u32)
      requires Shape() && k < |env.lows| && RecordInSource(env, k) && i < AttrCount(env.lows[k])
      requires attrUsed <= env.attrSize && attrUsed % 16 == 0
      modifies this`attrUsed, attr
      ensures ok == AttrRangeOk(env, k, i, old(attrUsed))
      ensures ok ==>
                addr == env.attrBus + old(attrUsed) && attrUsed == RoundUp(old(attrUsed) + AttrLength(env, k, i), 16)
      ensures ok ==> attr[..] == Copied(AttrCopy(env, k, i, old(attr[..]), old(attrUsed)))
    {
      hide ReadLe, Copied, PacketBytes, RoundUp;
      var pkt, o, hindex := PacketBytes(env, k), AttrField(i), HandleIndex(env, k, 3 + i);
      var vboOffset := ReadLe(pkt, o);
      var width, stride, vertices := AttrWidth(pkt, i), AttrStride(pkt, i), VertexCount(env, k);
      var bo := Resolve(env.handles, hindex);
      if bo.None? || vertices > U32_MAX / stride {
        return false, 0;
      }
      var mem, copySize := bo.value.mem, vertices * stride;
      LeadIs(stride, vertices);
      if vboOffset > |mem| || copySize > |mem| - vboOffset || copySize > env.attrSize - attrUsed {
        return false, 0;
      }
      assert Fits(AttrCopy(env, k, i, attr[..], attrUsed));
      CopyVertices(mem, vboOffset, vertices, stride, width, attr, attrUsed);
      addr := env.attrBus + attrUsed;
      attrUsed := RoundUp(attrUsed + copySize, 16);
      ok := true;
    }

    /** The packet of record k: copied, stages relocated, attributes relocated. */
    method RelocatePacket(k: nat, ghost r: Reloc, ghost was: seq<byte>) returns (ok: bool)
      requires Valid() && k == |res.recs| < |env.lows| && RecordInSource(env, k) && r == res && was == out[..]
      requires dstOff + RecordSize(env.lows[k]) <= out.Length
      modifies this`uniSrc, this`uniDst, this`attrUsed, out, uni, attr
      ensures ok == StepRecord(env, r).Some?
      ensures ok ==> var r' := StepRecord(env, r).value;
                && out[..] == Splice(was, dstOff, r'.recs[k])
                && uniSrc == r'.taken && uniDst == |r'.words| && WordsPlaced(uni[..], r'.words)
                && attrUsed == r'.used && attr[..] == r'.attr
    {
      hide Splice, WordsPlaced, PacketsPlaced, RunStages, RunAttrs, PacketBytes, ValidReloc;
      CopyMem(PacketBytes(env, k), out, dstOff);
      ghost var st0 := FirstStage(env, k, r);
      ok := RelocateStages(k, st0, was);
      if ok {
        ok := RelocateAttrs(k, Attrs(RunStages(env, k, st0, 3).value.packet, r.attr, r.used), was);
      }
    }

    /** The stage loop. */
    method RelocateStages(k: nat, ghost st0: Stage, ghost was: seq<byte>) returns (ok: bool)
      requires Shape() && k < |env.lows| && RecordInSource(env, k)
      requires |st0.packet| == RecordSize(env.lows[k]) && dstOff + |st0.packet| <= out.Length == |was|
      requires out[..] == Splice(was, dstOff, st0.packet)
      requires uniSrc == st0.taken <= |env.uniforms| && uniDst == |st0.words| <= st0.taken
      requires WordsPlaced(uni[..], st0.words)
      modifies this`uniSrc, this`uniDst, out, uni
      ensures ok == RunStages(env, k, st0, 3).Some?
      ensures ok ==> var st := RunStages(env, k, st0, 3).value;
                && out[..] == Splice(was, dstOff, st.packet)
                && uniSrc == st.taken && uniDst == |st.words| && WordsPlaced(uni[..], st.words)
    {
      hide Splice, WordsPlaced, StepStage;
      var i := 0;
      while i < 3
        invariant 0 <= i <= 3 && RunStages(env, k, st0, i).Some?
        invariant var st := RunStages(env, k, st0, i).value;
                  && out[..] == Splice(was, dstOff, st.packet)
                  && uniSrc == st.taken && uniDst == |st.words| && WordsPlaced(uni[..], st.words)
      {
        ok := RelocateStage(k, i, RunStages(env, k, st0, i).value, was);
        if !ok {
          StagesStop(env, k, st0, i + 1);
          return;
        }
        i := i + 1;
      }
      ok := true;
    }

    /** The attribute loop. */
    method RelocateAttrs(k: nat, ghost a0: Attrs, ghost was: seq<byte>) returns (ok: bool)
      requires Shape() && k < |env.lows| && RecordInSource(env, k)
      requires ValidAttrs(env, k, a0) && dstOff + |a0.packet| <= out.Length == |was|
      requires out[..] == Splice(was, dstOff, a0.packet) && attrUsed == a0.used && attr[..] == a0.attr
      modifies this`attrUsed, out, attr
      ensures ok == RunAttrs(env, k, a0, AttrCount(env.lows[k])).Some?
      ensures ok ==> var a := RunAttrs(env, k, a0, AttrCount(env.lows[k])).value;
                && out[..] == Splice(was, dstOff, a.packet)
                && attrUsed == a.used && attr[..] == a.attr
    {
      hide Splice, StepAttr;
      var i := 0;
      while i < AttrCount(env.lows[k])
        invariant 0 <= i <= AttrCount(env.lows[k]) && RunAttrs(env, k, a0, i).Some?
        invariant var a := RunAttrs(env, k, a0, i).value;
                  && out[..] == Splice(was, dstOff, a.packet)
                  && attrUsed == a.used && attr[..] == a.attr
      {
        ok := RelocateAttr(k, i, RunAttrs(env, k, a0, i).value, was);
        if !ok {
          AttrsStop(env, k, a0, i + 1, AttrCount(env.lows[k]));
          return;
        }
        i := i + 1;
      }
      ok := true;
    }

    /** One turn of the record loop. */
    method RelocateRecord(k: nat) returns (ok: bool)
      requires Valid() && k == |res.recs| < |env.lows|
      modifies this, out, uni, attr
      ensures ok == StepRecord(env, old(res)).Some?
      ensures ok ==> Valid() && StepRecord(env, old(res)) == Some(res)
    {
      hide WordsPlaced, PacketsPlaced, RunStages, RunAttrs, RecordSize, AttrCount, RoundUp;
      ghost var r, was := res, out[..];
      if srcOff + SourceSize(env.lows[k]) > |env.rec| {
        return false;
      }
      OutputBehindInput(env.lows, k + 1);
      ok := RelocatePacket(k, r, was);
      if ok {
        ghost var r' := StepRecord(env, r).value;
        RecordAdded(was, env.lows, r.recs, r'.recs[k]);
        assert r'.recs == r.recs + [r'.recs[k]];
        res := r';
        srcOff, dstOff := srcOff + SourceSize(env.lows[k]), dstOff + RoundUp(RecordSize(env.lows[k]), 16);
      }
    }

    /** relocate_shader_recs: false is its error return. */
    method Relocate() returns (ok: bool)
      requires Valid() && res == Reloc([], [], env.scratch, 0, 0)
      modifies this, out, uni, attr
      ensures ok == RunRecords(env, |env.lows|).Some?
      ensures ok ==> Valid() && RunRecords(env, |env.lows|) == Some(res)
    {
      hide StepRecord, WordsPlaced, PacketsPlaced;
      var rec := 0;
      while rec < |env.lows|
        invariant 0 <= rec <= |env.lows| && Valid()
        invariant RunRecords(env, rec) == Some(res)
      {
        ok := RelocateRecord(rec);
        if !ok {
          RecordsStop(env, rec + 1);
          return;
        }
        rec := rec + 1;
      }
      ok := true;
    }
  }

  lemma {:induction false} RecordsStop(env: RelocEnv, n: nat)
    requires ValidReloc(env) && n <= |env.lows| && RunRecords(env, n).None?
    ensures RunRecords(env, |env.lows|).None?
    decreases |env.lows| - n
  {
    hide StepRecord;
    if n < |env.lows| {
      RecordsStop(env, n + 1);
    }
  }

  lemma {:induction false} StagesStop(env: RelocEnv, k: nat, st: Stage, n: nat)
    requires ValidReloc(env) && k < |env.lows| && RecordInSource(env, k) && n <= 3
    requires |st.packet| == RecordSize(env.lows[k]) && |st.words| <= st.taken <= |env.uniforms|
    requires RunStages(env, k, st, n).None?
    ensures RunStages(env, k, st, 3).None?
    decreases 3 - n
  {
    hide StepStage;
    if n < 3 {
      StagesStop(env, k, st, n + 1);
    }
  }

  lemma {:induction false} AttrsStop(env: RelocEnv, k: nat, st: Attrs, n: nat, m: nat)
    requires ValidReloc(env) && k < |env.lows| && RecordInSource(env, k)
    requires n <= m <= AttrCount(env.lows[k])
    requires ValidAttrs(env, k, st) && RunAttrs(env, k, st, n).None?
    ensures RunAttrs(env, k, st, m).None?
    decreases m - n
  {
    hide StepAttr;
    if n < m {
      AttrsStop(env, k, st, n + 1, m);
    }
  }
}
