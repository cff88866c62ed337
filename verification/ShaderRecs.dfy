/**
 * relocate_shader_recs as a function: every shader record becomes a hardware
 * record, its three uniform streams and one copy per vertex attribute.
 *
 * Results are lists that only grow. Where the pieces land in the buffers is a
 * matter of prefix sums, stated by the Placed predicates at the end.
 */
module ShaderRecs {
  import opened Bytes
  import opened Buffers
  import opened BinList
  import opened VertexSwap

  /**
   * What the pass is given. scratch is the memory at attr_scratch before the pass:
   * attrSize bytes, and behind them as much as a vertex wider than its stride can reach.
   */
  datatype RelocEnv = RelocEnv(
    handles: Handles, rec: seq<byte>, lows: seq<u32>, maxes: seq<u32>,
    uniforms: seq<u32>, uniformsBus: u32,
    attrBus: u32, attrSize: nat, scratch: seq<byte>)

  const BEHIND: nat := 256

  predicate ValidReloc(env: RelocEnv) {
    && ValidHandles(env.handles) && |env.lows| == |env.maxes|
    && env.attrSize % 16 == 0 && env.attrBus + env.attrSize < 0x1_0000_0000
    && |env.scratch| == env.attrSize + BEHIND
    && |env.rec| < 0x1_0000_0000 && |env.uniforms| < 0x4000_0000
    && forall low <- env.lows :: low < 16
  }

  /** Relocated records, all uniform words, the vertex scratch with the bytes used of it, source words consumed. */
  datatype Reloc = Reloc(recs: seq<seq<byte>>, words: seq<u32>, attr: seq<byte>, used: nat, taken: nat)

  // ---- Where a record lies in the source ----

  function RelocCount(low: u32): nat {
    3 + AttrCount(low)
  }

  function SourceSize(low: u32): nat {
    RelocCount(low) * 4 + RecordSize(low)
  }

  function SourceOffset(lows: seq<u32>, k: nat): nat
    requires k <= |lows|
  {
    if k == 0 then 0 else SourceOffset(lows, k - 1) + SourceSize(lows[k - 1])
  }

  predicate RecordInSource(env: RelocEnv, k: nat)
    requires k < |env.lows|
  {
    SourceOffset(env.lows, k) + SourceSize(env.lows[k]) <= |env.rec|
  }

  /** Handle index j of record k, in host order. */
  function HandleIndex(env: RelocEnv, k: nat, j: nat): u32
    requires k < |env.lows| && RecordInSource(env, k) && j < RelocCount(env.lows[k])
  {
    ReadBe(env.rec, SourceOffset(env.lows, k) + 4 * j)
  }

  function PacketBytes(env: RelocEnv, k: nat): (p: seq<byte>)
    requires k < |env.lows| && RecordInSource(env, k)
    ensures |p| == RecordSize(env.lows[k])
  {
    var at := SourceOffset(env.lows, k) + RelocCount(env.lows[k]) * 4;
    env.rec[at..at + RecordSize(env.lows[k])]
  }

  // ---- Uniform streams ----

  /** The stream word a sample's P0 parameter occupies, if it is inside the stream. */
  function P0Slot(s: Sample, n: nat): (r: Option<nat>)
    ensures r.Some? ==> r.value < n
  {
    if s.offsets == [] || s.offsets[0] / 4 >= n then None else Some(s.offsets[0] / 4)
  }

  predicate Patches(h: Handles, samples: seq<Sample>, tex: seq<u32>, n: nat, t: nat, d: nat)
    requires ValidHandles(h) && t < |samples| == |tex|
  {
    P0Slot(samples[t], n) == Some(d) && BusAddr(h, tex[t]) != 0
  }

  function PatchTextures(h: Handles, samples: seq<Sample>, tex: seq<u32>, data: seq<u32>, t: nat): (w: seq<u32>)
    requires ValidHandles(h) && |samples| == |tex| && t <= |samples|
    ensures |w| == |data|
  {
    if t == 0 then data
    else
      var w := PatchTextures(h, samples, tex, data, t - 1);
      match P0Slot(samples[t - 1], |data|)
      case None => w
      case Some(d) =>
        var bus := BusAddr(h, tex[t - 1]);
        if bus == 0 then w else w[d := Wrap(bus + data[d])]
  }

  function PatchAddrs(w: seq<u32>, slots: seq<u32>, start: u32, u: nat): (r: seq<u32>)
    requires u <= |slots|
    ensures |r| == |w|
  {
    if u == 0 then w
    else
      var r := PatchAddrs(w, slots, start, u - 1);
      if slots[u - 1] < |w| then r[slots[u - 1] := start] else r
  }

  function StreamWords(h: Handles, bo: Bo, tex: seq<u32>, data: seq<u32>, start: u32): (w: seq<u32>)
    requires ValidHandles(h) && |bo.samples| == |tex|
    ensures |w| == |data|
  {
    PatchAddrs(PatchTextures(h, bo.samples, tex, data, |tex|), bo.uniformAddrs, start, |bo.uniformAddrs|)
  }

  lemma {:induction false} UnpatchedAt(h: Handles, samples: seq<Sample>, tex: seq<u32>, data: seq<u32>, t: nat, d: nat)
    requires ValidHandles(h) && |samples| == |tex| && t <= |samples| && d < |data|
    requires forall i: nat :: i < t ==> !Patches(h, samples, tex, |data|, i, d)
    ensures PatchTextures(h, samples, tex, data, t)[d] == data[d]
  {
    if t > 0 {
      UnpatchedAt(h, samples, tex, data, t - 1, d);
      assert !Patches(h, samples, tex, |data|, t - 1, d);
    }
  }

  lemma {:induction false} PatchedAt(h: Handles, samples: seq<Sample>, tex: seq<u32>, data: seq<u32>, t: nat, i: nat,
                                     d: nat)
    requires ValidHandles(h) && |samples| == |tex| && i < t <= |samples| && d < |data|
    requires Patches(h, samples, tex, |data|, i, d)
    requires forall j: nat :: i < j < t ==> !Patches(h, samples, tex, |data|, j, d)
    ensures PatchTextures(h, samples, tex, data, t)[d] == Wrap(BusAddr(h, tex[i]) + data[d])
  {
    if i < t - 1 {
      PatchedAt(h, samples, tex, data, t - 1, i, d);
      assert !Patches(h, samples, tex, |data|, t - 1, d);
    }
  }

  lemma {:induction false} AddrsAt(w: seq<u32>, slots: seq<u32>, start: u32, u: nat, d: nat)
    requires u <= |slots| && d < |w|
    ensures PatchAddrs(w, slots, start, u)[d] == if d in slots[..u] then start else w[d]
  {
    if u > 0 {
      AddrsAt(w, slots, start, u - 1, d);
      assert slots[..u] == slots[..u - 1] + [slots[u - 1]];
    }
  }

  /** A word changes only in a UNIFORMS_ADDRESS slot or the P0 slot of a texture that resolves. */
  lemma UntouchedWord(h: Handles, bo: Bo, tex: seq<u32>, data: seq<u32>, start: u32, d: nat)
    requires ValidHandles(h) && |bo.samples| == |tex| && d < |data|
    requires d !in bo.uniformAddrs
    requires forall t: nat :: t < |tex| ==> !Patches(h, bo.samples, tex, |data|, t, d)
    ensures StreamWords(h, bo, tex, data, start)[d] == data[d]
  {
    UnpatchedAt(h, bo.samples, tex, data, |tex|, d);
    AddrsAt(PatchTextures(h, bo.samples, tex, data, |tex|), bo.uniformAddrs, start, |bo.uniformAddrs|, d);
    assert bo.uniformAddrs[..|bo.uniformAddrs|] == bo.uniformAddrs;
  }

  /** The P0 word of a texture is moved by its buffer's address, configuration bits and all. */
  lemma TextureWord(h: Handles, bo: Bo, tex: seq<u32>, data: seq<u32>, start: u32, t: nat, d: nat)
    requires ValidHandles(h) && |bo.samples| == |tex| && d < |data| && t < |tex|
    requires Patches(h, bo.samples, tex, |data|, t, d) && d !in bo.uniformAddrs
    requires forall j: nat :: t < j < |tex| ==> !Patches(h, bo.samples, tex, |data|, j, d)
    ensures StreamWords(h, bo, tex, data, start)[d] == Wrap(BusAddr(h, tex[t]) + data[d])
  {
    PatchedAt(h, bo.samples, tex, data, |tex|, t, d);
    AddrsAt(PatchTextures(h, bo.samples, tex, data, |tex|), bo.uniformAddrs, start, |bo.uniformAddrs|, d);
    assert bo.uniformAddrs[..|bo.uniformAddrs|] == bo.uniformAddrs;
  }

  /** A UNIFORMS_ADDRESS word holds the bus address of its own stream. */
  lemma AddressWord(h: Handles, bo: Bo, tex: seq<u32>, data: seq<u32>, start: u32, d: nat)
    requires ValidHandles(h) && |bo.samples| == |tex| && d < |data| && d in bo.uniformAddrs
    ensures StreamWords(h, bo, tex, data, start)[d] == start
  {
    AddrsAt(PatchTextures(h, bo.samples, tex, data, |tex|), bo.uniformAddrs, start, |bo.uniformAddrs|, d);
    assert bo.uniformAddrs[..|bo.uniformAddrs|] == bo.uniformAddrs;
  }

  // ---- One shader stage ----

  function CodeField(stage: nat): (o: nat)
    requires stage < 3
    ensures o + 4 <= 32
  {
    [4, 16, 28][stage]
  }

  function UniformField(stage: nat): (o: nat)
    requires stage < 3
    ensures o + 4 <= 36
  {
    [8, 20, 32][stage]
  }

  datatype Stage = Stage(packet: seq<byte>, words: seq<u32>, taken: nat)

  function StepStage(env: RelocEnv, k: nat, st: Stage, stage: nat): (r: Option<Stage>)
    requires ValidReloc(env) && k < |env.lows| && RecordInSource(env, k) && stage < 3
    requires |st.packet| == RecordSize(env.lows[k])
    ensures r.Some? ==> |r.value.packet| == |st.packet|
    ensures r.Some? ==> st.words <= r.value.words && r.value.taken <= |env.uniforms|
    ensures r.Some? ==> |r.value.words| - |st.words| <= r.value.taken - st.taken
  {
    var hindex := HandleIndex(env, k, stage);
    match Resolve(env.handles, hindex)
    case None => None
    case Some(bo) =>
      var n, m := |bo.samples|, bo.uniformsSize / 4;
      if st.taken + n + m > |env.uniforms| then None
      else
        var code := Wrap(BusAddr(env.handles, hindex) + ReadLe(PacketBytes(env, k), CodeField(stage)));
        var start := Wrap(env.uniformsBus + 4 * |st.words|);
        var tex, data := env.uniforms[st.taken..st.taken + n], env.uniforms[st.taken + n..st.taken + n + m];
        var packet := Splice(Splice(st.packet, CodeField(stage), LeBytes(code)), UniformField(stage), LeBytes(start));
        Some(Stage(packet, st.words + StreamWords(env.handles, bo, tex, data, start), st.taken + n + m))
  }

  // ---- One vertex attribute ----

  function AttrField(i: nat): nat {
    36 + i * 8
  }

  function AttrWidth(packet: seq<byte>, i: nat): (n: nat)
    requires AttrField(i) + 8 <= |packet|
    ensures 1 <= n <= 256
  {
    (packet[AttrField(i) + 4] as int) + 1
  }

  /** Stride in bytes; 0 means densely packed. */
  function AttrStride(packet: seq<byte>, i: nat): (n: nat)
    requires AttrField(i) + 8 <= |packet|
    ensures 1 <= n <= 256
  {
    if packet[AttrField(i) + 5] == 0 then AttrWidth(packet, i) else packet[AttrField(i) + 5]
  }

  /** Vertices of record k: one more than its largest index, in 32 bits. */
  function VertexCount(env: RelocEnv, k: nat): u32
    requires k < |env.maxes|
  {
    Wrap((env.maxes[k] as int) + 1)
  }

  /** The bytes of an attribute that are copied: stride times count (LeadIs). */
  function AttrLength(env: RelocEnv, k: nat, i: nat): nat
    requires k < |env.lows| == |env.maxes| && RecordInSource(env, k) && i < AttrCount(env.lows[k])
  {
    Lead(AttrStride(PacketBytes(env, k), i), VertexCount(env, k))
  }

  /** When they may be copied. */
  predicate AttrRangeOk(env: RelocEnv, k: nat, i: nat, used: nat)
    requires ValidReloc(env) && k < |env.lows| && RecordInSource(env, k) && i < AttrCount(env.lows[k])
  {
    var packet, bo := PacketBytes(env, k), Resolve(env.handles, HandleIndex(env, k, 3 + i));
    && bo.Some?
    && VertexCount(env, k) <= U32_MAX / AttrStride(packet, i)
    && ReadLe(packet, AttrField(i)) + AttrLength(env, k, i) <= |bo.value.mem|
    && used + AttrLength(env, k, i) <= env.attrSize
  }

  /** The copy of attribute i: its whole words are swapped, one vertex after the other. */
  function AttrCopy(env: RelocEnv, k: nat, i: nat, attr: seq<byte>, used: nat): (c: Copy)
    requires ValidReloc(env) && k < |env.lows| && RecordInSource(env, k) && i < AttrCount(env.lows[k])
    requires AttrRangeOk(env, k, i, used) && |attr| == |env.scratch|
    ensures Fits(c)
  {
    var packet := PacketBytes(env, k);
    var stride, count := AttrStride(packet, i), VertexCount(env, k);
    LeadIs(stride, count);
    Copy(attr, used, Resolve(env.handles, HandleIndex(env, k, 3 + i)).value.mem, ReadLe(packet, AttrField(i)),
         stride, AttrWidth(packet, i) / 4, count)
  }

  /** The address stored for an attribute: inside the scratch as it is, otherwise moved by the source offset. */
  function AttrAddress(env: RelocEnv, addr: u32, vboOffset: u32): u32 {
    if env.attrBus <= addr < env.attrBus + env.attrSize then addr else Wrap(addr + vboOffset)
  }

  datatype Attrs = Attrs(packet: seq<byte>, attr: seq<byte>, used: nat)

  predicate ValidAttrs(env: RelocEnv, k: nat, st: Attrs)
    requires k < |env.lows|
  {
    && |st.packet| == RecordSize(env.lows[k]) && |st.attr| == |env.scratch|
    && st.used <= env.attrSize && st.used % 16 == 0
  }

  function StepAttr(env: RelocEnv, k: nat, st: Attrs, i: nat): (r: Option<Attrs>)
    requires ValidReloc(env) && k < |env.lows| && RecordInSource(env, k) && i < AttrCount(env.lows[k])
    requires ValidAttrs(env, k, st)
    ensures r.Some? ==> ValidAttrs(env, k, r.value)
  {
    var vboOffset := ReadLe(PacketBytes(env, k), AttrField(i));
    if HandleIndex(env, k, 3 + i) >= |env.handles.list| then
      Some(st.(packet := Splice(st.packet, AttrField(i), LeBytes(AttrAddress(env, 0, vboOffset)))))
    else if !AttrRangeOk(env, k, i, st.used) then None
    else
      RoundUpWithin(st.used, AttrLength(env, k, i), env.attrSize);
      Some(Attrs(Splice(st.packet, AttrField(i), LeBytes(AttrAddress(env, env.attrBus + st.used, vboOffset))),
                 Copied(AttrCopy(env, k, i, st.attr, st.used)), RoundUp(st.used + AttrLength(env, k, i), 16)))
  }

  // ---- One record, all records ----

  function RunStages(env: RelocEnv, k: nat, st: Stage, n: nat): (r: Option<Stage>)
    requires ValidReloc(env) && k < |env.lows| && RecordInSource(env, k) && n <= 3
    requires |st.packet| == RecordSize(env.lows[k]) && |st.words| <= st.taken <= |env.uniforms|
    ensures r.Some? ==> |r.value.packet| == |st.packet| && st.words <= r.value.words
    ensures r.Some? ==> |r.value.words| <= r.value.taken <= |env.uniforms|
  {
    if n == 0 then Some(st)
    else
      match RunStages(env, k, st, n - 1)
      case None => None
      case Some(st') => StepStage(env, k, st', n - 1)
  }

  function RunAttrs(env: RelocEnv, k: nat, st: Attrs, n: nat): (r: Option<Attrs>)
    requires ValidReloc(env) && k < |env.lows| && RecordInSource(env, k) && n <= AttrCount(env.lows[k])
    requires ValidAttrs(env, k, st)
    ensures r.Some? ==> ValidAttrs(env, k, r.value)
  {
    if n == 0 then Some(st)
    else
      match RunAttrs(env, k, st, n - 1)
      case None => None
      case Some(st') => StepAttr(env, k, st', n - 1)
  }

  predicate ValidResult(env: RelocEnv, r: Reloc)
    requires ValidReloc(env)
  {
    && |r.recs| <= |env.lows| && |r.words| <= r.taken <= |env.uniforms|
    && |r.attr| == |env.scratch| && r.used <= env.attrSize && r.used % 16 == 0
    && forall k: nat :: k < |r.recs| ==> |r.recs[k]| == RecordSize(env.lows[k])
  }

  function StepRecord(env: RelocEnv, r: Reloc): (r': Option<Reloc>)
    requires ValidReloc(env) && ValidResult(env, r) && |r.recs| < |env.lows|
    ensures r'.Some? ==> ValidResult(env, r'.value) && |r'.value.recs| == |r.recs| + 1
  {
    var k := |r.recs|;
    if !RecordInSource(env, k) then None
    else
      match RunStages(env, k, Stage(PacketBytes(env, k), r.words, r.taken), 3)
      case None => None
      case Some(st) =>
        match RunAttrs(env, k, Attrs(st.packet, r.attr, r.used), AttrCount(env.lows[k]))
        case None => None
        case Some(a) => Some(Reloc(r.recs + [a.packet], st.words, a.attr, a.used, st.taken))
  }

  /** The first n records; None where relocate_shader_recs returns an error. */
  function RunRecords(env: RelocEnv, n: nat): (r: Option<Reloc>)
    requires ValidReloc(env) && n <= |env.lows|
    ensures r.Some? ==> ValidResult(env, r.value) && |r.value.recs| == n
  {
    if n == 0 then Some(Reloc([], [], env.scratch, 0, 0))
    else
      match RunRecords(env, n - 1)
      case None => None
      case Some(r') => StepRecord(env, r')
  }
}
