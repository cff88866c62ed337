/** Relocated shader records word by word, at the offsets the V3D reads them from. */
module RecordLayout {
  import opened Bytes
  import opened Buffers
  import opened BinList
  import opened VertexSwap
  import opened ShaderRecs
  import opened RecordMeaning

  // ---- The source ----

  function AttrsIn(low: u32): (n: nat)
    ensures 1 <= n <= 8
  {
    if low % 8 == 0 then 8 else low % 8
  }

  function BytesIn(low: u32): (n: nat)
    ensures 36 + 8 * AttrsIn(low) <= n
  {
    if low / 8 % 2 == 1 then 100 + 4 * AttrsIn(low) else 36 + 8 * AttrsIn(low)
  }

  /** Records follow each other: three shader handles, one handle an attribute, the record. */
  function HandlesAt(lows: seq<u32>, k: nat): nat
    requires k <= |lows|
  {
    if k == 0 then 0 else HandlesAt(lows, k - 1) + 12 + 4 * AttrsIn(lows[k - 1]) + BytesIn(lows[k - 1])
  }

  function RecordAt(lows: seq<u32>, k: nat): nat
    requires k < |lows|
  {
    HandlesAt(lows, k) + 12 + 4 * AttrsIn(lows[k])
  }

  lemma {:induction false} SourcePlaces(lows: seq<u32>, k: nat)
    requires k <= |lows|
    ensures SourceOffset(lows, k) == HandlesAt(lows, k)
    ensures k < |lows| ==> AttrCount(lows[k]) == AttrsIn(lows[k]) && RecordSize(lows[k]) == BytesIn(lows[k])
  {
    if k > 0 {
      SourcePlaces(lows, k - 1);
    }
  }

  /** Handle j and the word at f of record k, in the source. */
  lemma SourceWords(env: RelocEnv, k: nat, j: nat, f: nat)
    requires k < |env.lows| && RecordInSource(env, k) && j < 3 + AttrsIn(env.lows[k])
    requires f + 4 <= BytesIn(env.lows[k])
    ensures AttrCount(env.lows[k]) == AttrsIn(env.lows[k]) && RecordSize(env.lows[k]) == BytesIn(env.lows[k])
    ensures RecordAt(env.lows, k) + BytesIn(env.lows[k]) <= |env.rec|
    ensures HandleIndex(env, k, j) == ReadBe(env.rec, HandlesAt(env.lows, k) + 4 * j)
    ensures |PacketBytes(env, k)| == BytesIn(env.lows[k])
    ensures ReadLe(PacketBytes(env, k), f) == ReadLe(env.rec, RecordAt(env.lows, k) + f)
  {
    hide ReadBe, ReadLe, AttrCount, RecordSize, AttrsIn, BytesIn, HandlesAt, SourceOffset;
    SourcePlaces(env.lows, k);
    SliceRead(env.rec, RecordAt(env.lows, k), BytesIn(env.lows[k]), f);
  }

  lemma SliceRead(s: seq<byte>, at: nat, n: nat, f: nat)
    requires at + n <= |s| && f + 4 <= n
    ensures ReadLe(s[at..at + n], f) == ReadLe(s, at + f)
  {
  }

  // ---- Shaders ----

  /** The live buffer a stage's handle names. */
  function ShaderOf(env: RelocEnv, k: nat, stage: nat): (bo: Option<Bo>)
    requires ValidReloc(env) && k < |env.lows| && stage < 3 && HandlesAt(env.lows, k) + 12 <= |env.rec|
  {
    var i := ReadBe(env.rec, HandlesAt(env.lows, k) + 4 * stage);
    if Live(env.handles.list, env.handles.table, i) then Some(env.handles.table[env.handles.list[i]]) else None
  }

  /** The word at code is the shader's address plus the source's word there, the next one its stream, at word start. */
  predicate ShaderPlaced(env: RelocEnv, k: nat, stage: nat, code: nat, packet: seq<byte>, start: nat)
    requires ValidReloc(env) && k < |env.lows| && stage < 3 && HandlesAt(env.lows, k) + 12 <= |env.rec|
  {
    && ShaderOf(env, k, stage).Some? && code + 8 <= |packet| && RecordAt(env.lows, k) + code + 4 <= |env.rec|
    && ReadLe(packet, code)
         == Wrap(ShaderOf(env, k, stage).value.bus + ReadLe(env.rec, RecordAt(env.lows, k) + code))
    && ReadLe(packet, code + 4) == Wrap(env.uniformsBus + 4 * start)
  }

  /** How many words of a stream the stage's shader reads, and how many source words they are patched from. */
  function WordsRead(env: RelocEnv, k: nat, stage: nat): nat
    requires ValidReloc(env) && k < |env.lows| && stage < 3 && HandlesAt(env.lows, k) + 12 <= |env.rec|
  {
    match ShaderOf(env, k, stage)
    case None => 0
    case Some(bo) => bo.uniformsSize / 4
  }

  function WordsTaken(env: RelocEnv, k: nat, stage: nat): nat
    requires ValidReloc(env) && k < |env.lows| && stage < 3 && HandlesAt(env.lows, k) + 12 <= |env.rec|
  {
    match ShaderOf(env, k, stage)
    case None => 0
    case Some(bo) => |bo.samples| + bo.uniformsSize / 4
  }

  /** The words from start on are the stage's stream, patched from the source words behind taken. */
  predicate StreamPlaced(env: RelocEnv, k: nat, stage: nat, words: seq<u32>, start: nat, taken: nat)
    requires ValidReloc(env) && k < |env.lows| && stage < 3 && HandlesAt(env.lows, k) + 12 <= |env.rec|
  {
    && ShaderOf(env, k, stage).Some?
    && var bo, n, m := ShaderOf(env, k, stage).value, WordsTaken(env, k, stage), WordsRead(env, k, stage);
    && taken + n <= |env.uniforms| && start + m <= |words|
    && words[start..start + m] == StreamWords(env.handles, bo, env.uniforms[taken..taken + n - m],
                                              env.uniforms[taken + n - m..taken + n],
                                              Wrap(env.uniformsBus + 4 * start))
  }

  lemma StageLiteral(env: RelocEnv, k: nat, i: nat, before: Stage, after: Stage, packet: seq<byte>, words: seq<u32>)
    requires ValidReloc(env) && k < |env.lows| && RecordInSource(env, k) && i < 3
    requires |packet| == RecordSize(env.lows[k]) && StageShown(env, k, i, before, after, packet, words)
    ensures HandlesAt(env.lows, k) + 12 <= |env.rec|
    ensures ShaderPlaced(env, k, i, 4 + 12 * i, packet, |before.words|)
    ensures StreamPlaced(env, k, i, words, |before.words|, before.taken)
    ensures |after.words| == |before.words| + WordsRead(env, k, i)
    ensures after.taken == before.taken + WordsTaken(env, k, i)
  {
    hide ReadLe, ReadBe, StreamWords, PacketBytes, SourceOffset, HandlesAt, AttrsIn, BytesIn, AttrCount, RecordSize,
         Resolve, Live, BusAddr, Splice, LeBytes, Wrap;
    SourceWords(env, k, i, 4 + 12 * i);
    ResolveExactly(env.handles, HandleIndex(env, k, i));
    BusOfLive(env.handles, HandleIndex(env, k, i));
    FieldPlaces(i);
  }

  lemma FieldPlaces(i: nat)
    requires i < 3
    ensures CodeField(i) == 4 + 12 * i && UniformField(i) == 8 + 12 * i
  {
  }

  lemma BusOfLive(h: Handles, i: u32)
    requires ValidHandles(h) && Live(h.list, h.table, i)
    ensures BusAddr(h, i) == h.table[h.list[i]].bus
  {
  }

  /**
   * Every record of an accepted run: at 4, 16 and 28 the fragment, vertex and
   * coordinate shader, from handles 0, 1 and 2; at 8, 20 and 32 their streams,
   * which follow each other from where the record before ended.
   */
  lemma ShaderWords(env: RelocEnv, n: nat, k: nat)
    requires ValidReloc(env) && k < n <= |env.lows| && RunRecords(env, n).Some?
    ensures RunRecords(env, k).Some? && RunRecords(env, k + 1).Some? && HandlesAt(env.lows, k) + 12 <= |env.rec|
    ensures var packet, words := RunRecords(env, n).value.recs[k], RunRecords(env, n).value.words;
            var u0, t0 := |RunRecords(env, k).value.words|, RunRecords(env, k).value.taken;
            var u1, t1 := u0 + WordsRead(env, k, 0), t0 + WordsTaken(env, k, 0);
            var u2, t2 := u1 + WordsRead(env, k, 1), t1 + WordsTaken(env, k, 1);
            && |packet| == BytesIn(env.lows[k])
            && ShaderPlaced(env, k, 0, 4, packet, u0) && StreamPlaced(env, k, 0, words, u0, t0)
            && ShaderPlaced(env, k, 1, 16, packet, u1) && StreamPlaced(env, k, 1, words, u1, t1)
            && ShaderPlaced(env, k, 2, 28, packet, u2) && StreamPlaced(env, k, 2, words, u2, t2)
            && |RunRecords(env, k + 1).value.words| == u2 + WordsRead(env, k, 2)
            && RunRecords(env, k + 1).value.taken == t2 + WordsTaken(env, k, 2)
  {
    hide StageShown, ShaderPlaced, StreamPlaced, AttrShown, ReadLe, PacketBytes, RunAttrs, RunStages, ReadBe, HandlesAt,
         SourceOffset, WordsRead, WordsTaken, BytesIn, AttrsIn, AttrCount, RecordSize, RunRecords;
    RecordsMeaning(env, n, k);
    var r, before := RunRecords(env, n).value, RunRecords(env, k).value;
    var st0 := FirstStage(env, k, before);
    var st1, st2 := RunStages(env, k, st0, 1).value, RunStages(env, k, st0, 2).value;
    var st3 := RunStages(env, k, st0, 3).value;
    SourcePlaces(env.lows, k);
    StageLiteral(env, k, 0, st0, st1, r.recs[k], r.words);
    StageLiteral(env, k, 1, st1, st2, r.recs[k], r.words);
    StageLiteral(env, k, 2, st2, st3, r.recs[k], r.words);
    RunPrefix(env, k + 1, n);
    AfterStages(env, k);
  }

  lemma {:induction false} RunPrefix(env: RelocEnv, k: nat, n: nat)
    requires ValidReloc(env) && k <= n <= |env.lows| && RunRecords(env, n).Some?
    ensures RunRecords(env, k).Some?
  {
    hide StepRecord;
    if k < n {
      RunPrefix(env, k, n - 1);
    }
  }

  lemma AfterStages(env: RelocEnv, k: nat)
    requires ValidReloc(env) && k < |env.lows| && RunRecords(env, k + 1).Some? && RunRecords(env, k).Some?
    requires RecordInSource(env, k)
    ensures var st := RunStages(env, k, FirstStage(env, k, RunRecords(env, k).value), 3);
            && st.Some? && RunRecords(env, k + 1).value.words == st.value.words
            && RunRecords(env, k + 1).value.taken == st.value.taken
  {
    hide RunStages, RunAttrs, PacketBytes;
  }

  // ---- Attributes ----

  /** An attribute's entry: its offset in the buffer, the bytes of a vertex, the distance of two, the buffer itself. */
  datatype AttrEntry = AttrEntry(offset: u32, width: nat, stride: nat, handle: u32)

  /** Eight bytes each from 36 on; handles behind the three of the shaders. */
  function EntryOf(env: RelocEnv, k: nat, i: nat): AttrEntry
    requires k < |env.lows| && RecordAt(env.lows, k) + 44 + 8 * i <= |env.rec| && i < AttrsIn(env.lows[k])
  {
    var at := RecordAt(env.lows, k) + 36 + 8 * i;
    var width, stride := (env.rec[at + 4] as int) + 1, env.rec[at + 5];
    AttrEntry(ReadLe(env.rec, at), width, if stride == 0 then width else stride,
              ReadBe(env.rec, HandlesAt(env.lows, k) + 12 + 4 * i))
  }

  lemma EntryPlaces(env: RelocEnv, k: nat, i: nat)
    requires ValidReloc(env) && k < |env.lows| && RecordInSource(env, k) && i < AttrsIn(env.lows[k])
    ensures AttrCount(env.lows[k]) == AttrsIn(env.lows[k]) && RecordSize(env.lows[k]) == BytesIn(env.lows[k])
    ensures RecordAt(env.lows, k) + 44 + 8 * i <= |env.rec|
    ensures var e, p := EntryOf(env, k, i), PacketBytes(env, k);
            && ReadLe(p, AttrField(i)) == e.offset && AttrWidth(p, i) == e.width && AttrStride(p, i) == e.stride
            && HandleIndex(env, k, 3 + i) == e.handle
  {
    hide ReadBe, ReadLe, HandlesAt, SourceOffset;
    SourceWords(env, k, 3 + i, 36 + 8 * i);
    SourcePlaces(env.lows, k);
    assert PacketBytes(env, k)[40 + 8 * i] == env.rec[RecordAt(env.lows, k) + 40 + 8 * i];
    assert PacketBytes(env, k)[41 + 8 * i] == env.rec[RecordAt(env.lows, k) + 41 + 8 * i];
  }

  /** Vertices a record is copied for: one more than its largest index, in 32 bits. */
  function VerticesOf(env: RelocEnv, k: nat): nat
    requires k < |env.maxes|
  {
    ((env.maxes[k] as int) + 1) % 0x1_0000_0000
  }

  /**
   * Attribute i of every record of an accepted run. If its handle is outside the
   * list, the entry keeps its offset (0 when that is where the scratch lies).
   * Otherwise the handle names a live buffer that holds the vertices, and where
   * words fit the stride, word w of vertex x is found little-endian behind the
   * entry's address as the buffer has it big-endian behind the offset.
   */
  lemma AttrWords(env: RelocEnv, n: nat, k: nat, i: nat)
    requires ValidReloc(env) && k < n <= |env.lows| && RunRecords(env, n).Some? && i < AttrsIn(env.lows[k])
    ensures RecordAt(env.lows, k) + 44 + 8 * i <= |env.rec| && k < |RunRecords(env, n).value.recs|
    ensures 36 + 8 * i + 8 <= |RunRecords(env, n).value.recs[k]|
    ensures var e, r := EntryOf(env, k, i), RunRecords(env, n).value;
            var address := ReadLe(r.recs[k], 36 + 8 * i);
            if e.handle >= |env.handles.list| then
              address == if env.attrBus == 0 && env.attrSize > 0 then 0 else e.offset
            else
              && Live(env.handles.list, env.handles.table, e.handle)
              && var mem := env.handles.table[env.handles.list[e.handle]].mem;
              && e.offset + VerticesOf(env, k) * e.stride <= |mem|
              && (4 * (e.width / 4) <= e.stride ==> forall x: nat :: x < VerticesOf(env, k) ==>
                    WordsShown(r.attr, address - env.attrBus + x * e.stride, mem, e.offset + x * e.stride, e.width / 4))
  {
    hide StageShown, AttrShown, ReadLe, PacketBytes, RunAttrs, RunStages, ReadBe, HandlesAt, SourceOffset, BytesIn,
         AttrsIn, AttrCount, RecordSize, RunRecords, EntryOf, WordsShown, AttrWidth, AttrStride, HandleIndex, Resolve,
         Live;
    RecordsMeaning(env, n, k);
    EntryPlaces(env, k, i);
    var before, r := RunRecords(env, k).value, RunRecords(env, n).value;
    var a0 := Attrs(RunStages(env, k, FirstStage(env, k, before), 3).value.packet, before.attr, before.used);
    AttrLiteral(env, k, i, RunAttrs(env, k, a0, i).value, r.recs[k], r.attr, r.used);
  }

  lemma AttrLiteral(env: RelocEnv, k: nat, i: nat, before: Attrs, packet: seq<byte>, attr: seq<byte>, used: nat)
    requires ValidReloc(env) && k < |env.lows| && RecordInSource(env, k) && i < AttrCount(env.lows[k])
    requires |packet| == RecordSize(env.lows[k]) && ValidAttrs(env, k, before)
    requires AttrShown(env, k, i, before, packet, attr, used)
    ensures var p, h := PacketBytes(env, k), HandleIndex(env, k, 3 + i);
            var address, offset := ReadLe(packet, AttrField(i)), ReadLe(p, AttrField(i));
            var stride, m := AttrStride(p, i), AttrWidth(p, i) / 4;
            if h >= |env.handles.list| then address == if env.attrBus == 0 && env.attrSize > 0 then 0 else offset
            else
              && Live(env.handles.list, env.handles.table, h)
              && var mem := env.handles.table[env.handles.list[h]].mem;
              && offset + VerticesOf(env, k) * stride <= |mem|
              && (4 * m <= stride ==> forall x: nat :: x < VerticesOf(env, k) ==>
                    WordsShown(attr, address - env.attrBus + x * stride, mem, offset + x * stride, m))
  {
    hide ReadLe, PacketBytes, AttrWidth, AttrStride, HandleIndex, Resolve, Live, WordsShown, AttrShown, BusAddr,
         AttrRangeOk, SourceSize;
    if HandleIndex(env, k, 3 + i) < |env.handles.list| {
      RangeLiteral(env, k, i, before, packet, attr, used);
      if WordsFit(env, k, i) {
        var p, mem := PacketBytes(env, k), Resolve(env.handles, HandleIndex(env, k, 3 + i)).value.mem;
        forall x: nat | x < VerticesOf(env, k)
          ensures WordsShown(attr, ReadLe(packet, AttrField(i)) - env.attrBus + x * AttrStride(p, i), mem,
                             ReadLe(p, AttrField(i)) + x * AttrStride(p, i), AttrWidth(p, i) / 4)
        {
          VertexIsShown(env, k, i, before, packet, attr, used, x);
        }
      }
    } else {
      UnlistedLiteral(env, k, i, before, packet, attr, used);
    }
  }

  lemma RangeLiteral(env: RelocEnv, k: nat, i: nat, before: Attrs, packet: seq<byte>, attr: seq<byte>, used: nat)
    requires ValidReloc(env) && k < |env.lows| && RecordInSource(env, k) && i < AttrCount(env.lows[k])
    requires |packet| == RecordSize(env.lows[k]) && ValidAttrs(env, k, before)
    requires AttrShown(env, k, i, before, packet, attr, used) && HandleIndex(env, k, 3 + i) < |env.handles.list|
    ensures var p, h := PacketBytes(env, k), HandleIndex(env, k, 3 + i);
            var list, table := env.handles.list, env.handles.table;
            && Live(list, table, h) && Resolve(env.handles, h) == Some(table[list[h]])
            && ReadLe(p, AttrField(i)) + VerticesOf(env, k) * AttrStride(p, i) <= |table[list[h]].mem|
  {
    hide ReadLe, PacketBytes, AttrWidth, AttrStride, HandleIndex, Resolve, Live, Copied, AttrCopy, AttrValue, Extends,
         BusAddr;
    ResolveExactly(env.handles, HandleIndex(env, k, 3 + i));
    LeadIs(AttrStride(PacketBytes(env, k), i), VertexCount(env, k));
  }

  lemma UnlistedLiteral(env: RelocEnv, k: nat, i: nat, before: Attrs, packet: seq<byte>, attr: seq<byte>, used: nat)
    requires ValidReloc(env) && k < |env.lows| && RecordInSource(env, k) && i < AttrCount(env.lows[k])
    requires |packet| == RecordSize(env.lows[k]) && ValidAttrs(env, k, before)
    requires AttrShown(env, k, i, before, packet, attr, used) && HandleIndex(env, k, 3 + i) >= |env.handles.list|
    ensures ReadLe(packet, AttrField(i))
         == if env.attrBus == 0 && env.attrSize > 0 then 0 else ReadLe(PacketBytes(env, k), AttrField(i))
  {
    hide ReadLe, PacketBytes, HandleIndex;
  }

  // ---- The rest ----

  /** A word that belongs to no shader and no attribute. */
  predicate Elsewhere(env: RelocEnv, k: nat, f: nat)
    requires k < |env.lows|
  {
    && f + 4 <= BytesIn(env.lows[k])
    && (f in {0, 12, 24} || f >= 36 + 8 * AttrsIn(env.lows[k]) || (f >= 36 && (f - 36) % 8 == 4))
  }

  /** It is as in the source. */
  lemma OtherWords(env: RelocEnv, n: nat, k: nat, f: nat)
    requires ValidReloc(env) && k < n <= |env.lows| && RunRecords(env, n).Some? && Elsewhere(env, k, f)
    ensures k < |RunRecords(env, n).value.recs| && f + 4 <= |RunRecords(env, n).value.recs[k]|
    ensures RecordAt(env.lows, k) + f + 4 <= |env.rec|
    ensures ReadLe(RunRecords(env, n).value.recs[k], f) == ReadLe(env.rec, RecordAt(env.lows, k) + f)
  {
    hide StageShown, AttrShown, ReadLe, PacketBytes, RunAttrs, RunStages, HandlesAt, SourceOffset, BytesIn, AttrsIn,
         AttrCount, RecordSize, RunRecords, HandleIndex;
    RecordsMeaning(env, n, k);
    SourceWords(env, k, 0, f);
    assert UntouchedField(env, k, f) by {
      assert forall i: nat :: i < AttrsIn(env.lows[k]) ==> Apart(f, AttrField(i));
    }
  }
}
