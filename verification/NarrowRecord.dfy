/** Attributes wider than their stride: relocated without complaint, and read back wrong. */
module NarrowRecord {
  import opened Bytes
  import opened Buffers
  import opened BinList
  import opened VertexSwap
  import opened ShaderRecs
  import opened RecordMeaning
  import opened RecordSizing

  /** Attribute i of record k, whose vertex buffer is listed, among n accepted records. */
  predicate Relocated(env: RelocEnv, n: nat, k: nat, i: nat) {
    && ValidReloc(env) && k < n <= |env.lows| && RecordInSource(env, k) && i < AttrCount(env.lows[k])
    && HandleIndex(env, k, 3 + i) < |env.handles.list| && RunRecords(env, n).Some?
  }

  /** Its vertices on their way into the scratch, as the run finds it then. */
  function CopyOf(env: RelocEnv, n: nat, k: nat, i: nat): (c: Copy)
    requires Relocated(env, n, k, i)
    ensures Fits(c)
  {
    Reached(env, n, k, i);
    AttrCopy(env, k, i, AttrAt(env, k, i).value.attr, AttrAt(env, k, i).value.used)
  }

  /** The run reaches the attribute, and the final record and scratch show it. */
  lemma Reached(env: RelocEnv, n: nat, k: nat, i: nat)
    requires Relocated(env, n, k, i)
    ensures AttrAt(env, k, i).Some? && AttrRangeOk(env, k, i, AttrAt(env, k, i).value.used)
    ensures var r := RunRecords(env, n).value;
            && k < |r.recs| && |r.recs[k]| == RecordSize(env.lows[k])
            && AttrShown(env, k, i, AttrAt(env, k, i).value, r.recs[k], r.attr, r.used)
  {
    hide RunRecords, AttrValue, Extends, Copied, AttrCopy, AttrRangeOk, StageShown, RunStages, RunAttrs, ReadLe;
    RecordsMeaning(env, n, k);
    var r := RunRecords(env, n).value;
    assert AttrShown(env, k, i, AttrAt(env, k, i).value, r.recs[k], r.attr, r.used);
  }

  /** Where the last word of the last vertex ends in the source, relative to the first vertex. */
  function LastByteOf(c: Copy): nat
    requires c.count > 0 && c.n > 0
  {
    Lead(c.stride, c.count - 1) + 4 * c.n - 1
  }

  /**
   * The buffer holds the last word of the last vertex, its last byte is not the
   * scratch byte the swap fetches in its place, and no later copy lands on that.
   */
  predicate Stray(c: Copy, attr: seq<byte>) {
    && Fits(c) && c.count > 0 && c.n > 0
    && c.from + LastByteOf(c) < |c.mem| && c.at + LastByteOf(c) < |c.scratch| == |attr|
    && c.scratch[c.at + LastByteOf(c)] != c.mem[c.from + LastByteOf(c)]
    && attr[c.at + LastByteOf(c) - 3] == Copied(c)[c.at + LastByteOf(c) - 3]
  }

  /** Any such attribute of any accepted record: its last vertex is not what the V3D finds at its address. */
  lemma NarrowIsLost(env: RelocEnv, n: nat, k: nat, i: nat)
    requires Relocated(env, n, k, i) && !WordsFit(env, k, i)
    requires Stray(CopyOf(env, n, k, i), RunRecords(env, n).value.attr)
    ensures var r := RunRecords(env, n).value;
            && k < |r.recs| && |r.recs[k]| == RecordSize(env.lows[k])
            && !VertexShown(env, k, i, r.recs[k], r.attr, VertexCount(env, k) - 1)
  {
    hide RunRecords, PacketBytes, Copied, ReadLe, ReadBe, VertexCount, RecordInSource, ValidReloc, AttrAt, Extends;
    Reached(env, n, k, i);
    var c, r := CopyOf(env, n, k, i), RunRecords(env, n).value;
    LastByte(c);
    LeadIs(c.stride, c.count - 1);
    AddressIs(env, k, i, AttrAt(env, k, i).value.used);
    WordDiffers(r.attr, c.at + LastByteOf(c) - 3, c.mem, c.from + LastByteOf(c) - 3);
    assert !WordShown(r.attr, c.at + Lead(c.stride, c.count - 1), c.mem, c.from + Lead(c.stride, c.count - 1), c.n - 1);
  }

  lemma AddressIs(env: RelocEnv, k: nat, i: nat, used: nat)
    requires ValidReloc(env) && k < |env.lows| && RecordInSource(env, k) && i < AttrCount(env.lows[k])
    requires HandleIndex(env, k, 3 + i) < |env.handles.list| && AttrRangeOk(env, k, i, used)
    requires VertexCount(env, k) > 0
    ensures AttrValue(env, k, i, used) == env.attrBus + used
  {
    LeadIs(AttrStride(PacketBytes(env, k), i), VertexCount(env, k));
    assert AttrLength(env, k, i) > 0;
  }

  lemma WordDiffers(s: seq<byte>, a: nat, t: seq<byte>, b: nat)
    requires a + 4 <= |s| && b + 4 <= |t| && s[a] != t[b + 3]
    ensures ReadLe(s, a) != ReadBe(t, b)
  {
    assert ReadLe(s, a) % 0x100 == s[a] as int;
    assert ReadBe(t, b) % 0x100 == t[b + 3] as int;
  }

  // ---- One such record ----

  /** One live buffer of four bytes. */
  function Table(): seq<Bo> {
    seq(MAX_BOS, h => if h == 1 then Bo(1, 0x1000, [1, 2, 3, 4], 0, [], []) else Bo(0, 0, [], 0, [], []))
  }

  lemma TableValid()
    ensures ValidHandles(Handles([1], Table()))
  {
    assert forall bo <- Table() :: |bo.mem| <= 4;
  }

  /** Four handle indices, then a record with one attribute of four bytes. */
  function Source(stride: byte): (s: seq<byte>)
    ensures |s| == 60
  {
    seq(60, b => if b == 56 then 3 else if b == 57 then stride else 0)
  }

  /** That record alone, on that buffer, with nothing in the uniform list. */
  predicate OneRecord(env: RelocEnv, stride: byte) {
    && ValidReloc(env) && env.handles == Handles([1], Table()) && env.rec == Source(stride)
    && env.lows == [1] && |env.maxes| == 1 && env.uniforms == [] && 0 < stride
  }

  lemma Shape(env: RelocEnv, stride: byte)
    requires OneRecord(env, stride)
    ensures RecordInSource(env, 0) && AttrCount(1) == 1 && RecordSize(1) == 44
    ensures forall j :: 0 <= j < 4 ==> HandleIndex(env, 0, j) == 0
    ensures Resolve(env.handles, 0) == Some(Table()[1])
    ensures ReadLe(PacketBytes(env, 0), 36) == 0
    ensures AttrWidth(PacketBytes(env, 0), 0) == 4 && AttrStride(PacketBytes(env, 0), 0) == stride
  {
    assert SourceOffset([1], 0) == 0;
    assert AttrCount(1) == 1;
    var p := PacketBytes(env, 0);
    assert forall b :: 0 <= b < 44 ==> p[b] == if b == 40 then 3 else if b == 41 then stride else 0;
  }

  lemma {:induction false} Stages(env: RelocEnv, stride: byte, st: Stage, n: nat)
    requires OneRecord(env, stride) && RecordInSource(env, 0)
    requires |st.packet| == RecordSize(1) && n <= 3 && st.words == [] && st.taken == 0
    ensures RunStages(env, 0, st, n).Some?
    ensures RunStages(env, 0, st, n).value.words == [] && RunStages(env, 0, st, n).value.taken == 0
  {
    hide ReadLe, PacketBytes, Source, RecordInSource;
    Shape(env, stride);
    if n > 0 {
      Stages(env, stride, st, n - 1);
    }
  }

  /** The attribute loop starts on the scratch as it was given. */
  lemma FirstIs(env: RelocEnv, stride: byte)
    requires OneRecord(env, stride) && RecordInSource(env, 0)
    ensures RunRecords(env, 0) == Some(Reloc([], [], env.scratch, 0, 0)) && AttrAt(env, 0, 0) == FirstAttrs(env, 0)
    ensures var a := FirstAttrs(env, 0); a.Some? && a.value.attr == env.scratch && a.value.used == 0
  {
    hide ReadLe, PacketBytes, Source, Table, RecordInSource;
    Stages(env, stride, Stage(PacketBytes(env, 0), [], 0), 3);
  }

  /** Its run: accepted if the vertices asked for are there, and the scratch holds the one copy. */
  lemma OneRuns(env: RelocEnv, stride: byte)
    requires OneRecord(env, stride) && RecordInSource(env, 0) && AttrRangeOk(env, 0, 0, 0)
    ensures Relocated(env, 1, 0, 0)
    ensures CopyOf(env, 1, 0, 0) == AttrCopy(env, 0, 0, env.scratch, 0)
    ensures RunRecords(env, 1).value.attr == Copied(CopyOf(env, 1, 0, 0))
  {
    Shape(env, stride);
    FirstIs(env, stride);
    hide PacketBytes, Source, Table, Copied, RunStages, RecordInSource, AttrRangeOk, AttrCopy, VertexCount, WordsFit,
         ReadLe, HandleIndex, ValidReloc, Resolve, RunAttrs;
    var a := FirstAttrs(env, 0).value;
    OneAttr(env, a);
    assert RunRecords(env, 1) == StepRecord(env, RunRecords(env, 0).value);
  }

  lemma OneAttr(env: RelocEnv, a: Attrs)
    requires ValidReloc(env) && 0 < |env.lows| && RecordInSource(env, 0) && ValidAttrs(env, 0, a)
    ensures RunAttrs(env, 0, a, 1) == StepAttr(env, 0, a, 0)
  {
    hide StepAttr;
  }

  function Env(): RelocEnv {
    RelocEnv(Handles([1], Table()), Source(1), [1], [0], [], 0x2000, 0x3000, 16, seq(16 + BEHIND, i => 0))
  }

  lemma Fields()
    ensures OneRecord(Env(), 1) && RecordInSource(Env(), 0) && AttrRangeOk(Env(), 0, 0, 0) && !WordsFit(Env(), 0, 0)
    ensures AttrCopy(Env(), 0, 0, Env().scratch, 0) == Copy(Env().scratch, 0, [1, 2, 3, 4], 0, 1, 1, 1)
  {
    hide PacketBytes, Source, Table, Fits;
    TableValid();
    assert OneRecord(Env(), 1);
    Shape(Env(), 1);
  }

  /** With stride one the record is accepted and meets the conditions under which its vertex is lost. */
  lemma NarrowHappens(env: RelocEnv)
    requires env == Env()
    ensures Relocated(env, 1, 0, 0) && !WordsFit(env, 0, 0)
    ensures Stray(CopyOf(env, 1, 0, 0), RunRecords(env, 1).value.attr)
  {
    Fields();
    hide PacketBytes, Source, Table, RunRecords, Copied, HandleIndex, RecordInSource, AttrRangeOk, AttrCopy, CopyOf,
         ValidReloc, Resolve, VertexCount, WordsFit, ReadLe;
    OneRuns(env, 1);
    var c := CopyOf(env, 1, 0, 0);
    assert c.scratch == env.scratch && LastByteOf(c) == 3;
  }
}
