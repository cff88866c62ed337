/** What relocated shader records, uniform streams and vertex copies contain, and where they lie. */
module RecordMeaning {
  import opened Bytes
  import opened Buffers
  import opened BinList
  import opened ShaderRecs
  import opened VertexSwap

  lemma FieldWritten(s: seq<byte>, at: nat, v: u32)
    requires at + 4 <= |s|
    ensures ReadLe(Splice(s, at, LeBytes(v)), at) == v
  {
    ReadLeAt(s[..at], LeBytes(v), s[at + 4..], v);
  }

  lemma FieldKept(s: seq<byte>, at: nat, v: u32, f: nat)
    requires at + 4 <= |s| && f + 4 <= |s| && (f + 4 <= at || at + 4 <= f)
    ensures ReadLe(Splice(s, at, LeBytes(v)), f) == ReadLe(s, f)
  {
    var t := Splice(s, at, LeBytes(v));
    assert t[f] == s[f] && t[f + 1] == s[f + 1] && t[f + 2] == s[f + 2] && t[f + 3] == s[f + 3];
  }

  // ---- Shader stages ----

  function CodeAddress(env: RelocEnv, k: nat, stage: nat): u32
    requires ValidReloc(env) && k < |env.lows| && RecordInSource(env, k) && stage < 3
  {
    Wrap(BusAddr(env.handles, HandleIndex(env, k, stage)) + ReadLe(PacketBytes(env, k), CodeField(stage)))
  }

  /** The uniform words of a stage whose source starts at word taken. */
  function StageStream(env: RelocEnv, k: nat, stage: nat, taken: nat, start: u32): seq<u32>
    requires ValidReloc(env) && k < |env.lows| && RecordInSource(env, k) && stage < 3
    requires Resolve(env.handles, HandleIndex(env, k, stage)).Some?
    requires var bo := Resolve(env.handles, HandleIndex(env, k, stage)).value;
             taken + |bo.samples| + bo.uniformsSize / 4 <= |env.uniforms|
  {
    var bo := Resolve(env.handles, HandleIndex(env, k, stage)).value;
    var n, m := |bo.samples|, bo.uniformsSize / 4;
    StreamWords(env.handles, bo, env.uniforms[taken..taken + n], env.uniforms[taken + n..taken + n + m], start)
  }

  lemma StageMeaning(env: RelocEnv, k: nat, st: Stage, stage: nat)
    requires ValidReloc(env) && k < |env.lows| && RecordInSource(env, k) && stage < 3
    requires |st.packet| == RecordSize(env.lows[k]) && StepStage(env, k, st, stage).Some?
    ensures var st', start := StepStage(env, k, st, stage).value, Wrap(env.uniformsBus + 4 * |st.words|);
            && ReadLe(st'.packet, CodeField(stage)) == CodeAddress(env, k, stage)
            && ReadLe(st'.packet, UniformField(stage)) == start
            && st'.words == st.words + StageStream(env, k, stage, st.taken, start)
            && (forall f: nat :: f + 4 <= |st.packet| && Apart(f, CodeField(stage)) && Apart(f, UniformField(stage)) ==>
                 ReadLe(st'.packet, f) == ReadLe(st.packet, f))
  {
    hide ReadLe, PacketBytes;
    var start := Wrap(env.uniformsBus + 4 * |st.words|);
    var one := Splice(st.packet, CodeField(stage), LeBytes(CodeAddress(env, k, stage)));
    var st' := StepStage(env, k, st, stage).value;
    assert st'.packet == Splice(one, UniformField(stage), LeBytes(start));
    FieldWritten(st.packet, CodeField(stage), CodeAddress(env, k, stage));
    FieldWritten(one, UniformField(stage), start);
    FieldKept(one, UniformField(stage), start, CodeField(stage));
    forall f: nat | f + 4 <= |st.packet| && Apart(f, CodeField(stage)) && Apart(f, UniformField(stage))
      ensures ReadLe(st'.packet, f) == ReadLe(st.packet, f)
    {
      FieldKept(st.packet, CodeField(stage), CodeAddress(env, k, stage), f);
      FieldKept(one, UniformField(stage), start, f);
    }
  }

  predicate Apart(f: nat, g: nat) {
    f + 4 <= g || g + 4 <= f
  }

  /** A field no stage owns. */
  predicate NoStageField(f: nat) {
    && Apart(f, 4) && Apart(f, 8) && Apart(f, 16) && Apart(f, 20) && Apart(f, 28) && Apart(f, 32)
  }

  /** Stage i of a record as the finished packet and the finished streams show it. */
  predicate StageShown(env: RelocEnv, k: nat, i: nat, before: Stage, after: Stage, packet: seq<byte>, words: seq<u32>)
    requires ValidReloc(env) && k < |env.lows| && RecordInSource(env, k) && i < 3
    requires |packet| == RecordSize(env.lows[k])
  {
    var start := Wrap(env.uniformsBus + 4 * |before.words|);
    && ReadLe(packet, CodeField(i)) == CodeAddress(env, k, i)
    && ReadLe(packet, UniformField(i)) == start
    && |before.words| <= |after.words| <= |words|
    && |before.packet| == RecordSize(env.lows[k]) && StepStage(env, k, before, i) == Some(after)
    && words[|before.words|..|after.words|] == StageStream(env, k, i, before.taken, start)
  }

  lemma SlicePrefix(a: seq<u32>, b: seq<u32>, lo: nat, hi: nat)
    requires a <= b && lo <= hi <= |a|
    ensures a[lo..hi] == b[lo..hi]
  {
  }

  lemma StageShows(env: RelocEnv, k: nat, st: Stage, i: nat)
    requires ValidReloc(env) && k < |env.lows| && RecordInSource(env, k) && i < 3
    requires |st.packet| == RecordSize(env.lows[k]) && StepStage(env, k, st, i).Some?
    ensures var st' := StepStage(env, k, st, i).value; StageShown(env, k, i, st, st', st'.packet, st'.words)
  {
    hide StepStage, ReadLe, StageStream, PacketBytes;
    StageMeaning(env, k, st, i);
  }

  /** A later stage leaves an earlier one as it was. */
  lemma StageStays(env: RelocEnv, k: nat, i: nat, before: Stage, after: Stage, st: Stage, j: nat)
    requires ValidReloc(env) && k < |env.lows| && RecordInSource(env, k) && i < j < 3
    requires |st.packet| == RecordSize(env.lows[k]) && StepStage(env, k, st, j).Some?
    requires StageShown(env, k, i, before, after, st.packet, st.words)
    ensures var st' := StepStage(env, k, st, j).value; StageShown(env, k, i, before, after, st'.packet, st'.words)
  {
    hide StepStage, ReadLe, StageStream, PacketBytes;
    StageMeaning(env, k, st, j);
    SlicePrefix(st.words, StepStage(env, k, st, j).value.words, |before.words|, |after.words|);
  }

  /** The three streams of a record follow each other, and the packet points at each of them. */
  lemma StagesMeaning(env: RelocEnv, k: nat, st0: Stage)
    requires ValidReloc(env) && k < |env.lows| && RecordInSource(env, k)
    requires |st0.packet| == RecordSize(env.lows[k]) && |st0.words| <= st0.taken <= |env.uniforms|
    requires RunStages(env, k, st0, 3).Some?
    ensures var st1, st2, st3 := RunStages(env, k, st0, 1), RunStages(env, k, st0, 2), RunStages(env, k, st0, 3).value;
            && st1.Some? && st2.Some?
            && StageShown(env, k, 0, st0, st1.value, st3.packet, st3.words)
            && StageShown(env, k, 1, st1.value, st2.value, st3.packet, st3.words)
            && StageShown(env, k, 2, st2.value, st3, st3.packet, st3.words)
  {
    hide StepStage, StageShown;
    var st1, st2 := RunStages(env, k, st0, 1).value, RunStages(env, k, st0, 2).value;
    assert RunStages(env, k, st0, 0) == Some(st0);
    StageShows(env, k, st0, 0);
    StageShows(env, k, st1, 1);
    StageShows(env, k, st2, 2);
    StageStays(env, k, 0, st0, st1, st1, 1);
    StageStays(env, k, 0, st0, st1, st2, 2);
    StageStays(env, k, 1, st1, st2, st2, 2);
  }

  lemma {:induction false} StagesKeepField(env: RelocEnv, k: nat, st0: Stage, n: nat, f: nat)
    requires ValidReloc(env) && k < |env.lows| && RecordInSource(env, k) && n <= 3
    requires |st0.packet| == RecordSize(env.lows[k]) && |st0.words| <= st0.taken <= |env.uniforms|
    requires RunStages(env, k, st0, n).Some? && f + 4 <= |st0.packet| && NoStageField(f)
    ensures ReadLe(RunStages(env, k, st0, n).value.packet, f) == ReadLe(st0.packet, f)
  {
    hide StepStage, ReadLe, StageStream, PacketBytes;
    if n > 0 {
      StagesKeepField(env, k, st0, n - 1, f);
      StageMeaning(env, k, RunStages(env, k, st0, n - 1).value, n - 1);
    }
  }

  // ---- Vertex attributes ----

  /** The word stored for attribute i when used bytes of scratch are taken. */
  function AttrValue(env: RelocEnv, k: nat, i: nat, used: nat): u32
    requires ValidReloc(env) && k < |env.lows| && RecordInSource(env, k) && i < AttrCount(env.lows[k])
    requires used <= env.attrSize
  {
    AttrAddress(env, if HandleIndex(env, k, 3 + i) >= |env.handles.list| then 0 else env.attrBus + used,
                ReadLe(PacketBytes(env, k), AttrField(i)))
  }

  /** What the scratch holds up to used is still there in a later scratch. */
  predicate Extends(attr: seq<byte>, used: nat, later: seq<byte>) {
    used <= |attr| == |later| && later[..used] == attr[..used]
  }

  lemma CopiedExtends(c: Copy)
    requires Fits(c)
    ensures Extends(c.scratch, c.at, Copied(c))
  {
    hide SwapAll;
    var s := Splice(c.scratch, c.at, c.mem[c.from..c.from + Lead(c.stride, c.count)]);
    forall i | 0 <= i < c.at
      ensures Copied(c)[i] == c.scratch[i]
    {
      KeptOutside(s, c.at, c.stride, c.n, c.count, i);
    }
  }

  /** Attribute i of a record as a packet and a scratch of which used bytes are taken show it. */
  predicate AttrShown(env: RelocEnv, k: nat, i: nat, before: Attrs, packet: seq<byte>, attr: seq<byte>, used: nat)
    requires ValidReloc(env) && k < |env.lows| && RecordInSource(env, k) && i < AttrCount(env.lows[k])
    requires |packet| == RecordSize(env.lows[k]) && ValidAttrs(env, k, before)
  {
    && ReadLe(packet, AttrField(i)) == AttrValue(env, k, i, before.used)
    && (HandleIndex(env, k, 3 + i) < |env.handles.list| ==>
          && AttrRangeOk(env, k, i, before.used) && before.used + AttrLength(env, k, i) <= used <= |attr|
          && Extends(Copied(AttrCopy(env, k, i, before.attr, before.used)), before.used + AttrLength(env, k, i), attr))
  }

  lemma AttrMeaning(env: RelocEnv, k: nat, st: Attrs, i: nat)
    requires ValidReloc(env) && k < |env.lows| && RecordInSource(env, k) && i < AttrCount(env.lows[k])
    requires ValidAttrs(env, k, st) && StepAttr(env, k, st, i).Some?
    ensures var st' := StepAttr(env, k, st, i).value;
            && AttrShown(env, k, i, st, st'.packet, st'.attr, st'.used)
            && Extends(st.attr, st.used, st'.attr) && st.used <= st'.used
            && (forall f: nat :: f + 4 <= |st.packet| && Apart(f, AttrField(i)) ==>
                 ReadLe(st'.packet, f) == ReadLe(st.packet, f))
  {
    hide ReadLe, PacketBytes, Copied;
    var v := AttrValue(env, k, i, st.used);
    var st' := StepAttr(env, k, st, i).value;
    assert st'.packet == Splice(st.packet, AttrField(i), LeBytes(v));
    FieldWritten(st.packet, AttrField(i), v);
    if HandleIndex(env, k, 3 + i) < |env.handles.list| {
      CopiedExtends(AttrCopy(env, k, i, st.attr, st.used));
    }
    forall f: nat | f + 4 <= |st.packet| && Apart(f, AttrField(i))
      ensures ReadLe(st'.packet, f) == ReadLe(st.packet, f)
    {
      FieldKept(st.packet, AttrField(i), v, f);
    }
  }

  /** Later copies and fields leave an attribute as it is shown. */
  lemma AttrStays(env: RelocEnv, k: nat, i: nat, before: Attrs, packet: seq<byte>, attr: seq<byte>, used: nat,
                  packet': seq<byte>, attr': seq<byte>, used': nat)
    requires ValidReloc(env) && k < |env.lows| && RecordInSource(env, k) && i < AttrCount(env.lows[k])
    requires |packet| == |packet'| == RecordSize(env.lows[k]) && ValidAttrs(env, k, before)
    requires ReadLe(packet, AttrField(i)) == ReadLe(packet', AttrField(i))
    requires Extends(attr, used, attr') && used <= used' <= |attr'|
    requires AttrShown(env, k, i, before, packet, attr, used)
    ensures AttrShown(env, k, i, before, packet', attr', used')
  {
    hide AttrValue, AttrRangeOk, AttrCopy, Copied, ReadLe, AttrLength;
    if HandleIndex(env, k, 3 + i) < |env.handles.list| {
      var n := before.used + AttrLength(env, k, i);
      assert attr'[..used][..n] == attr[..used][..n];
      assert attr'[..n] == attr[..n];
    }
  }

  lemma {:induction false} AttrsMeaning(env: RelocEnv, k: nat, st0: Attrs, n: nat, i: nat)
    requires ValidReloc(env) && k < |env.lows| && RecordInSource(env, k)
    requires i < n <= AttrCount(env.lows[k])
    requires ValidAttrs(env, k, st0) && RunAttrs(env, k, st0, n).Some?
    ensures RunAttrs(env, k, st0, i).Some?
    ensures var st := RunAttrs(env, k, st0, n).value;
            AttrShown(env, k, i, RunAttrs(env, k, st0, i).value, st.packet, st.attr, st.used)
  {
    hide StepAttr, AttrShown, ReadLe, RecordInSource;
    var st', st := RunAttrs(env, k, st0, n - 1).value, RunAttrs(env, k, st0, n).value;
    AttrMeaning(env, k, st', n - 1);
    if i < n - 1 {
      AttrsMeaning(env, k, st0, n - 1, i);
      assert Apart(AttrField(i), AttrField(n - 1));
      AttrStays(env, k, i, RunAttrs(env, k, st0, i).value, st'.packet, st'.attr, st'.used, st.packet, st.attr, st.used);
    }
  }

  /** The attribute loop keeps what the scratch held and every field of no attribute. */
  lemma {:induction false} AttrsKeep(env: RelocEnv, k: nat, st0: Attrs, n: nat)
    requires ValidReloc(env) && k < |env.lows| && RecordInSource(env, k) && n <= AttrCount(env.lows[k])
    requires ValidAttrs(env, k, st0) && RunAttrs(env, k, st0, n).Some?
    ensures var st := RunAttrs(env, k, st0, n).value;
            && Extends(st0.attr, st0.used, st.attr) && st0.used <= st.used
            && (forall f: nat :: f + 4 <= |st0.packet| && (forall i: nat :: i < n ==> Apart(f, AttrField(i))) ==>
                 ReadLe(st.packet, f) == ReadLe(st0.packet, f))
  {
    hide StepAttr, AttrShown, ReadLe, RecordInSource;
    if n > 0 {
      AttrsKeep(env, k, st0, n - 1);
      var st', st := RunAttrs(env, k, st0, n - 1).value, RunAttrs(env, k, st0, n).value;
      AttrMeaning(env, k, st', n - 1);
      assert st.attr[..st'.used][..st0.used] == st'.attr[..st'.used][..st0.used];
      assert st.attr[..st0.used] == st'.attr[..st0.used];
    }
  }

  // ---- A whole record ----

  function FirstStage(env: RelocEnv, k: nat, before: Reloc): Stage
    requires k < |env.lows| && RecordInSource(env, k)
  {
    Stage(PacketBytes(env, k), before.words, before.taken)
  }

  /** A field the driver leaves alone. */
  predicate UntouchedField(env: RelocEnv, k: nat, f: nat)
    requires k < |env.lows|
  {
    && f + 4 <= RecordSize(env.lows[k]) && NoStageField(f)
    && forall i: nat :: i < AttrCount(env.lows[k]) ==> Apart(f, AttrField(i))
  }

  /**
   * The finished record: three stages with consecutive uniform streams, every
   * attribute, and nothing else changed. before is the state the record starts from.
   */
  ghost predicate RecordShown(env: RelocEnv, k: nat, before: Reloc, packet: seq<byte>, words: seq<u32>,
                              attr: seq<byte>, used: nat)
    requires ValidReloc(env) && k < |env.lows| && ValidResult(env, before)
    requires |packet| == RecordSize(env.lows[k])
  {
    && RecordInSource(env, k)
    && var st0 := FirstStage(env, k, before);
    && RunStages(env, k, st0, 1).Some? && RunStages(env, k, st0, 2).Some? && RunStages(env, k, st0, 3).Some?
    && StageShown(env, k, 0, st0, RunStages(env, k, st0, 1).value, packet, words)
    && StageShown(env, k, 1, RunStages(env, k, st0, 1).value, RunStages(env, k, st0, 2).value, packet, words)
    && StageShown(env, k, 2, RunStages(env, k, st0, 2).value, RunStages(env, k, st0, 3).value, packet, words)
    && var a0 := Attrs(RunStages(env, k, st0, 3).value.packet, before.attr, before.used);
    && (forall i: nat :: i < AttrCount(env.lows[k]) ==> RunAttrs(env, k, a0, i).Some?)
    && (forall i: nat :: i < AttrCount(env.lows[k]) ==>
          AttrShown(env, k, i, RunAttrs(env, k, a0, i).value, packet, attr, used))
    && (forall f: nat :: UntouchedField(env, k, f) ==> ReadLe(packet, f) == ReadLe(PacketBytes(env, k), f))
  }

  lemma StageShownIn(env: RelocEnv, k: nat, i: nat, before: Stage, after: Stage,
                     p: seq<byte>, words: seq<u32>, p': seq<byte>, words': seq<u32>)
    requires ValidReloc(env) && k < |env.lows| && RecordInSource(env, k) && i < 3
    requires |p| == |p'| == RecordSize(env.lows[k]) && words <= words'
    requires ReadLe(p, CodeField(i)) == ReadLe(p', CodeField(i))
    requires ReadLe(p, UniformField(i)) == ReadLe(p', UniformField(i))
    requires StageShown(env, k, i, before, after, p, words)
    ensures StageShown(env, k, i, before, after, p', words')
  {
    hide StepStage, ReadLe, StageStream, PacketBytes;
    SlicePrefix(words, words', |before.words|, |after.words|);
  }

  lemma StepRecordMeaning(env: RelocEnv, r: Reloc)
    requires ValidReloc(env) && ValidResult(env, r) && |r.recs| < |env.lows|
    requires StepRecord(env, r).Some?
    ensures var r' := StepRecord(env, r).value;
            && r'.recs[..|r.recs|] == r.recs && r.words <= r'.words && Extends(r.attr, r.used, r'.attr)
            && r.used <= r'.used
            && RecordShown(env, |r.recs|, r, r'.recs[|r.recs|], r'.words, r'.attr, r'.used)
  {
    hide StepStage, StepAttr, StageShown, AttrShown, ReadLe, PacketBytes, AttrRangeOk;
    var k, r' := |r.recs|, StepRecord(env, r).value;
    var st0 := FirstStage(env, k, r);
    var st3 := RunStages(env, k, st0, 3).value;
    var a0, n := Attrs(st3.packet, r.attr, r.used), AttrCount(env.lows[k]);
    var packet := r'.recs[k];
    StagesMeaning(env, k, st0);
    AttrsKeep(env, k, a0, n);
    forall i: nat | i < n
      ensures RunAttrs(env, k, a0, i).Some?
      ensures AttrShown(env, k, i, RunAttrs(env, k, a0, i).value, packet, r'.attr, r'.used)
    {
      AttrsMeaning(env, k, a0, n, i);
    }
    StageShownIn(env, k, 0, st0, RunStages(env, k, st0, 1).value, st3.packet, st3.words, packet, r'.words);
    StageShownIn(env, k, 1, RunStages(env, k, st0, 1).value, RunStages(env, k, st0, 2).value,
                 st3.packet, st3.words, packet, r'.words);
    StageShownIn(env, k, 2, RunStages(env, k, st0, 2).value, st3, st3.packet, st3.words, packet, r'.words);
    forall f: nat | UntouchedField(env, k, f)
      ensures ReadLe(packet, f) == ReadLe(PacketBytes(env, k), f)
    {
      StagesKeepField(env, k, st0, 3, f);
    }
  }

  lemma RecordStays(env: RelocEnv, k: nat, before: Reloc, packet: seq<byte>, words: seq<u32>, attr: seq<byte>,
                    used: nat, words': seq<u32>, attr': seq<byte>, used': nat)
    requires ValidReloc(env) && k < |env.lows| && ValidResult(env, before)
    requires |packet| == RecordSize(env.lows[k]) && words <= words'
    requires Extends(attr, used, attr') && used <= used' <= |attr'|
    requires RecordShown(env, k, before, packet, words, attr, used)
    ensures RecordShown(env, k, before, packet, words', attr', used')
  {
    hide StageShown, AttrShown, ReadLe, PacketBytes, RunAttrs, RunStages, AttrRangeOk, Extends;
    var st0 := FirstStage(env, k, before);
    StageShownIn(env, k, 0, st0, RunStages(env, k, st0, 1).value, packet, words, packet, words');
    StageShownIn(env, k, 1, RunStages(env, k, st0, 1).value, RunStages(env, k, st0, 2).value,
                 packet, words, packet, words');
    StageShownIn(env, k, 2, RunStages(env, k, st0, 2).value, RunStages(env, k, st0, 3).value,
                 packet, words, packet, words');
    var a0 := Attrs(RunStages(env, k, st0, 3).value.packet, before.attr, before.used);
    forall i: nat | i < AttrCount(env.lows[k])
      ensures AttrShown(env, k, i, RunAttrs(env, k, a0, i).value, packet, attr', used')
    {
      AttrStays(env, k, i, RunAttrs(env, k, a0, i).value, packet, attr, used, packet, attr', used');
    }
  }

  /** Every relocated record is shown by the final packets, streams and vertex scratch. */
  lemma {:induction false} RecordsMeaning(env: RelocEnv, n: nat, k: nat)
    requires ValidReloc(env) && k < n <= |env.lows| && RunRecords(env, n).Some?
    ensures RunRecords(env, k).Some?
    ensures var r := RunRecords(env, n).value;
            RecordShown(env, k, RunRecords(env, k).value, r.recs[k], r.words, r.attr, r.used)
  {
    hide StepRecord, RecordShown;
    var r' := RunRecords(env, n - 1).value;
    StepRecordMeaning(env, r');
    if k < n - 1 {
      RecordsMeaning(env, n - 1, k);
      var r := RunRecords(env, n).value;
      assert r.recs[k] == r'.recs[k];
      RecordStays(env, k, RunRecords(env, k).value, r.recs[k], r'.words, r'.attr, r'.used, r.words, r.attr, r.used);
    }
  }

  // ---- Vertices ----

  /** Word w at b of a big-endian buffer is found little-endian at a. */
  predicate WordShown(s: seq<byte>, a: int, t: seq<byte>, b: int, w: nat) {
    0 <= a && 0 <= b && a + 4 * w + 4 <= |s| && b + 4 * w + 4 <= |t| && ReadLe(s, a + 4 * w) == ReadBe(t, b + 4 * w)
  }

  predicate WordsShown(s: seq<byte>, a: int, t: seq<byte>, b: int, n: nat) {
    forall w: nat :: w < n ==> WordShown(s, a, t, b, w)
  }

  /** The whole words of an attribute fit its stride. */
  predicate WordsFit(env: RelocEnv, k: nat, i: nat)
    requires ValidReloc(env) && k < |env.lows| && RecordInSource(env, k) && i < AttrCount(env.lows[k])
  {
    4 * (AttrWidth(PacketBytes(env, k), i) / 4) <= AttrStride(PacketBytes(env, k), i)
  }

  /** The words of vertex x, as the CPU wrote them, are found where the attribute's address points. */
  predicate VertexShown(env: RelocEnv, k: nat, i: nat, packet: seq<byte>, attr: seq<byte>, x: nat)
    requires ValidReloc(env) && k < |env.lows| && RecordInSource(env, k) && i < AttrCount(env.lows[k])
    requires |packet| == RecordSize(env.lows[k])
  {
    var p, bo := PacketBytes(env, k), Resolve(env.handles, HandleIndex(env, k, 3 + i));
    var at := x * AttrStride(p, i);
    && bo.Some?
    && WordsShown(attr, ReadLe(packet, AttrField(i)) - env.attrBus + at, bo.value.mem, ReadLe(p, AttrField(i)) + at,
                  AttrWidth(p, i) / 4)
  }

  lemma SameRead(s: seq<byte>, t: seq<byte>, n: nat, i: nat)
    requires Extends(s, n, t) && i + 4 <= n
    ensures ReadLe(t, i) == ReadLe(s, i)
  {
    assert forall j :: 0 <= j < n ==> t[j] == t[..n][j] && s[j] == s[..n][j];
  }

  /** A copy whose words fit the stride shows its vertices, also after later copies. */
  lemma CopyShows(c: Copy, attr: seq<byte>, x: nat)
    requires Fits(c) && 4 * c.n <= c.stride && x < c.count
    requires Extends(Copied(c), c.at + Lead(c.stride, c.count), attr)
    ensures WordsShown(attr, c.at + x * c.stride, c.mem, c.from + x * c.stride, c.n)
  {
    hide Copied, ReadLe, ReadBe;
    LeadIs(c.stride, x);
    var a, b, end := c.at + Lead(c.stride, x), c.from + Lead(c.stride, x), c.at + Lead(c.stride, c.count);
    forall w: nat | w < c.n
      ensures WordShown(attr, a, c.mem, b, w)
    {
      CoveredReads(c, x, w);
      assert a + 4 * w + 4 <= end && b + 4 * w + 4 <= |c.mem|;
      SameRead(Copied(c), attr, end, a + 4 * w);
    }
  }

  /** Every vertex of an attribute that AttrShown shows is read back, where words fit the stride. */
  lemma VertexIsShown(env: RelocEnv, k: nat, i: nat, before: Attrs, packet: seq<byte>, attr: seq<byte>, used: nat,
                      x: nat)
    requires ValidReloc(env) && k < |env.lows| && RecordInSource(env, k) && i < AttrCount(env.lows[k])
    requires |packet| == RecordSize(env.lows[k]) && ValidAttrs(env, k, before)
    requires AttrShown(env, k, i, before, packet, attr, used) && HandleIndex(env, k, 3 + i) < |env.handles.list|
    requires WordsFit(env, k, i) && x < VertexCount(env, k)
    ensures VertexShown(env, k, i, packet, attr, x)
  {
    hide Copied, ReadLe, PacketBytes, VertexCount, WordsShown, Extends;
    var c := AttrCopy(env, k, i, before.attr, before.used);
    LeadIs(c.stride, c.count);
    LeadGrows(c.stride, x, c.count);
    CopyShows(c, attr, x);
    assert ReadLe(packet, AttrField(i)) == env.attrBus + before.used;
  }
}
