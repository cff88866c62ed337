/** What the V3D finds in the buffers of an accepted submission: lists, records, indices, vertices and uniforms. */
module SubmissionMeaning {
  import opened Bytes
  import opened Packets
  import opened Buffers
  import opened BinList
  import opened BinMeaning
  import opened DrawMeaning
  import opened BinSizing
  import opened ShaderRecs
  import opened RecordMeaning
  import opened RecordSizing
  import opened ShaderExec
  import opened RenderList
  import opened SubmitLayout
  import opened Submission

  /** A submission with a binner list that every pass accepts. */
  predicate Compiled(job: Job, p: Passes) {
    ValidJob(job) && job.bin != [] && Accepts(job, p)
  }

  /** The record pass of an accepted submission. */
  function EnvRun(job: Job, p: Passes): RelocEnv
    requires Compiled(job, p)
  {
    RecordEnv(job, p.scan, p.lay, p.fin.lows, p.fin.maxes, AttrSize(job, p.scan, p.lay, p.fin).value)
  }

  lemma PassesRun(job: Job, p: Passes)
    requires Compiled(job, p)
    ensures ValidJob(job) && job.bin != [] && FirstScan(job) == Some(p.scan) && Placed(job, p.scan, p.lay)
    ensures BinResult(job, p.scan, p.lay) == Some(p.fin)
    ensures ValidEnv(EnvOf(job, p.scan, p.lay)) && ValidState(EnvOf(job, p.scan, p.lay), Start(job, p.scan, p.lay))
    ensures Compile(EnvOf(job, p.scan, p.lay), Start(job, p.scan, p.lay), job.bin) == Some(p.fin)
    ensures EnvRun(job, p).lows == p.fin.lows && EnvRun(job, p).maxes == p.fin.maxes
    ensures ValidReloc(EnvRun(job, p)) && RunRecords(EnvRun(job, p), |p.fin.lows|) == Some(p.reloc)
  {
    hide Prescan, Compile, ScanRecords, RunRecords, Placed, EnvOf, Start;
    Started(job, p.scan, p.lay);
  }

  /** The binner list comes out meaning what it meant, using the scratch it was given to the byte. */
  lemma ListMeaning(job: Job, p: Passes)
    requires Compiled(job, p)
    ensures Placed(job, p.scan, p.lay) && ValidEnv(EnvOf(job, p.scan, p.lay))
    ensures Walk(true, job.bin).Some? && Walk(false, EncodeAll(p.fin.out)) == Some(p.fin.out)
    ensures Faithful(EnvOf(job, p.scan, p.lay), p.fin, ContextOf(Start(job, p.scan, p.lay)),
                     Walk(true, job.bin).value, p.fin.out)
    ensures p.fin.used == p.scan.indexSize && |p.fin.lows| < Need(job)
  {
    hide Compile, Walk, EncodeAll, Faithful, EnvOf, Start, Prescan, Placed, RangesInBuffers, BinResult, Compiled,
         ProcessedList, GemCount, ValidEnv, ValidState, BinMeaning.RecordsPlaced, RunRecords, ValidReloc, EnvRun;
    PassesRun(job, p);
    Started(job, p.scan, p.lay);
    BinnerPass(job, p.scan, p.lay);
    StartPlaced(EnvOf(job, p.scan, p.lay), Start(job, p.scan, p.lay));
    RewriteKeepsMeaning(EnvOf(job, p.scan, p.lay), Start(job, p.scan, p.lay), job.bin);
    assert p.fin.out[0..] == p.fin.out;
  }

  /** Every shader-state address names the offset at which its record is written, inside the record section. */
  lemma AddressesMeaning(job: Job, p: Passes, k: nat)
    requires Compiled(job, p) && k < |p.fin.lows|
    ensures var at := p.lay.recAt + RecordOffset(p.fin.lows, k);
            && k < |Announced(p.fin.out)| == |p.fin.lows|
            && Announced(p.fin.out)[k] == job.execBus + at + p.fin.lows[k]
            && at + RecordSize(p.fin.lows[k]) <= p.lay.recAt + |job.rec| <= p.lay.uniformsAt
  {
    hide Compile, EnvOf, Start, RecordOffset, RecordSize, Announced, RunRecords, ValidReloc, ValidEnv, ValidState,
         BinResult, Compiled, Prescan, ProcessedList;
    PassesRun(job, p);
    Started(job, p.scan, p.lay);
    EnvPlaced(job, p.scan, p.lay);
    RecordWhereAnnounced(p.lay.recAt, job.execBus, EnvOf(job, p.scan, p.lay), Start(job, p.scan, p.lay), job.bin,
                         EnvRun(job, p), k);
  }

  /** With the layout the driver computes, the branches of the render list land in the tile buffer. */
  lemma TilesMeaning(job: Job, p: Passes)
    requires Compiled(job, p) && p.lay.tileAlloc == TileAllocOffset(Tiles(p.scan))
    requires p.lay.tileAllocSize == TileAllocSize(Tiles(p.scan))
    ensures TileBuffer(RenderArgs(job, p.lay, p.fin.tilesX), p.scan, job.tileBus)
  {
    hide Compiled, Compile, Prescan, Start, EnvOf, EnvRun, RunRecords, ValidReloc, TileAllocOffset, TileAllocSize,
         Tiles, RecAt, UniformsAt, IndexAtOffset, ExecSize, BinResult;
    PassesRun(job, p);
    Started(job, p.scan, p.lay);
    WrapSmall(job.tileBus + p.lay.tileAlloc);
    ScanCoversRectangle(RenderArgs(job, p.lay, p.fin.tilesX), EnvOf(job, p.scan, p.lay), Start(job, p.scan, p.lay),
                        job.bin);
  }

  /** The configuration of the emitted list names the buffers of the job. */
  lemma ConfigMeaning(job: Job, p: Passes, m: nat)
    requires Compiled(job, p) && m < |p.fin.out| && p.fin.out[m].BinConfig?
    ensures var q := p.fin.out[m];
            && q.allocAddr == job.tileBus + p.lay.tileAlloc && q.allocSize == p.lay.tileAllocSize
            && q.stateAddr == job.tileBus
  {
    hide Compiled, Compile, Prescan, EnvRun, RunRecords, ValidReloc, Walk, EncodeAll, Faithful, BinResult, SameMeaning,
         Start, ValidEnv, ValidState;
    ListMeaning(job, p);
    PassesRun(job, p);
    var env := EnvOf(job, p.scan, p.lay);
    var q, c := FaithfulAt(env, p.fin, ContextOf(Start(job, p.scan, p.lay)), Walk(true, job.bin).value, p.fin.out, m);
    ConfigOf(env, p.fin, c, q, p.fin.out[m]);
    WrapSmall(job.tileBus + p.lay.tileAlloc);
    WrapSmall(p.lay.tileAllocSize);
  }

  /** The binner is told to fill the region the render list branches into, and to keep its state before it. */
  lemma BinnerFills(job: Job, p: Passes, m: nat, x: byte, y: byte)
    requires Compiled(job, p) && m < |p.fin.out| && p.fin.out[m].BinConfig?
    requires p.lay.tileAlloc == TileAllocOffset(Tiles(p.scan)) && p.lay.tileAllocSize == TileAllocSize(Tiles(p.scan))
    requires job.args.minX <= x <= job.args.maxX && job.args.minY <= y <= job.args.maxY
    ensures var q, target := p.fin.out[m], SublistAddress(RenderArgs(job, p.lay, p.fin.tilesX), x, y);
            && q.stateAddr + 48 * Tiles(p.scan) <= q.allocAddr
            && q.allocAddr <= target && target + 32 <= q.allocAddr + q.allocSize
  {
    hide Compiled, TileAllocSize, TileAllocOffset, Tiles, SublistAddress;
    TilesMeaning(job, p);
    ConfigMeaning(job, p, m);
    BranchInTileAlloc(RenderArgs(job, p.lay, p.fin.tilesX), p.scan, job.tileBus, x, y);
  }

  lemma ConfigOf(env: BinEnv, fin: BinState, c: Context, p: Packet, q: Packet)
    requires ValidEnv(env) && SameMeaning(env, fin, c, p, q) && q.BinConfig?
    ensures q.allocAddr == env.tileAllocBus && q.allocSize == env.tileAllocSize && q.stateAddr == env.tileStateBus
  {
  }

  // ---- Draws ----

  lemma SectionsFit(job: Job, p: Passes)
    requires Compiled(job, p)
    ensures EnvOf(job, p.scan, p.lay).scratchBus + |p.fin.scratch| <= U32_MAX
    ensures EnvRun(job, p).uniformsBus + 4 * |p.reloc.words| <= U32_MAX
  {
    hide Compiled, Compile, RunRecords, Prescan, BinResult, ValidReloc;
    PassesRun(job, p);
    WrapSmall(job.execBus + p.lay.uniformsAt);
    EnvPlaced(job, p.scan, p.lay);
  }

  /** Packet m of the emitted list is a draw under a record. */
  predicate DrawAt(p: Passes, m: nat) {
    m < |p.fin.out| && Drawing(p.fin.out[m]) && Shaders(p.fin.out, m) > 0
  }

  /**
   * The record in force at a draw is sized for every vertex the draw asks for,
   * if and only if an array draw numbers its vertices within 32 bits.
   */
  lemma DrawnCovered(job: Job, p: Passes, m: nat)
    requires Compiled(job, p) && DrawAt(p, m)
    ensures Shaders(p.fin.out, m) <= |p.fin.maxes|
    ensures (forall x: nat :: Draws(EnvOf(job, p.scan, p.lay), p.fin, p.fin.out[m], x) ==>
              x <= p.fin.maxes[Shaders(p.fin.out, m) - 1])
       <==> ArrayFits(p.fin.out[m])
    ensures exists x: nat :: Draws(EnvOf(job, p.scan, p.lay), p.fin, p.fin.out[m], x)
  {
    hide Compiled, Faithful, Compile, Walk, EncodeAll, Shaders, EnvRun, EnvOf, Start, SameMeaning, Draws, Placed,
         ValidEnv, Prescan, BinResult, RunRecords, ValidReloc, ValidState, ArrayFits, Drawing;
    PassesRun(job, p);
    ListMeaning(job, p);
    Started(job, p.scan, p.lay);
    SectionsFit(job, p);
    var env := EnvOf(job, p.scan, p.lay);
    var q, c := FaithfulAt(env, p.fin, ContextOf(Start(job, p.scan, p.lay)), Walk(true, job.bin).value, p.fin.out, m);
    DrawCoveredExactly(env, p.fin, c, q, p.fin.out[m]);
    DrawsSome(env, p.fin, c, q, p.fin.out[m]);
  }

  /** A record's maximum is the largest index noted for the packets under it, 0 when there is none. */
  lemma MaximaMeaning(job: Job, p: Passes)
    requires Compiled(job, p)
    ensures Maxed(p.fin)
  {
    hide Compiled, Compile, EnvRun, EnvOf, Placed, ValidEnv, Prescan, BinResult, RunRecords, ValidReloc, ValidState;
    PassesRun(job, p);
    Started(job, p.scan, p.lay);
    CompileMaxed(EnvOf(job, p.scan, p.lay), Start(job, p.scan, p.lay), job.bin);
  }

  /** No packet under record k has 2^32 - 1 noted as its largest index. */
  ghost predicate CountFits(ps: seq<Packet>, k: nat) {
    forall m: nat :: Under(ps, k, m) ==> Noted(ps[m]) < U32_MAX
  }

  /**
   * Every vertex a draw asks for is among those copied for the record in force,
   * if and only if the draw stays within 32 bits and so does one more than the
   * largest index of the record.
   */
  lemma DrawnCopied(job: Job, p: Passes, m: nat)
    requires Compiled(job, p) && DrawAt(p, m)
    ensures Shaders(p.fin.out, m) <= |EnvRun(job, p).maxes|
    ensures (forall x: nat :: Draws(EnvOf(job, p.scan, p.lay), p.fin, p.fin.out[m], x) ==>
              x < VertexCount(EnvRun(job, p), Shaders(p.fin.out, m) - 1))
       <==> ArrayFits(p.fin.out[m]) && CountFits(p.fin.out, Shaders(p.fin.out, m) - 1)
  {
    hide Compiled, EnvOf, EnvRun, Shaders, Placed, ValidEnv, BinResult, RunRecords, ValidReloc, ValidState, Draws,
         ArrayFits, Compile, Prescan, Noted;
    PassesRun(job, p);
    DrawnCovered(job, p, m);
    MaximaMeaning(job, p);
    var k := Shaders(p.fin.out, m) - 1;
    MaximumFits(p.fin, k);
    if p.fin.maxes[k] < U32_MAX {
      WrapSmall(p.fin.maxes[k] + 1);
      DrawnPast(EnvOf(job, p.scan, p.lay), p.fin, p.fin.out[m]);
    } else {
      assert VertexCount(EnvRun(job, p), k) == 0;
    }
  }

  lemma MaximumFits(fin: BinState, k: nat)
    requires Maxed(fin) && k < |fin.maxes|
    ensures CountFits(fin.out, k) <==> fin.maxes[k] < U32_MAX
  {
    hide Noted, Shaders;
  }

  /** An attribute whose vertex buffer is listed and whose words fit its stride. */
  predicate ReadableAttr(env: RelocEnv, k: nat, i: nat) {
    && ValidReloc(env) && k < |env.lows| && RecordInSource(env, k) && i < AttrCount(env.lows[k])
    && HandleIndex(env, k, 3 + i) < |env.handles.list| && WordsFit(env, k, i)
  }

  /** Every vertex copied for a record is shown by each of its readable attributes. */
  lemma VertexInImage(job: Job, p: Passes, k: nat, i: nat, x: nat)
    requires Compiled(job, p) && ReadableAttr(EnvRun(job, p), k, i) && x < VertexCount(EnvRun(job, p), k)
    ensures k < |p.reloc.recs| && |p.reloc.recs[k]| == RecordSize(EnvRun(job, p).lows[k])
    ensures VertexShown(EnvRun(job, p), k, i, p.reloc.recs[k], p.reloc.attr, x)
  {
    hide Compiled, Compile, EnvRun, EnvOf, Start, Placed, ValidEnv, Prescan, BinResult, RunRecords, VertexCount,
         RecordInSource, WordsFit, VertexShown, PacketBytes, HandleIndex, AttrShown, StageShown, RunAttrs, RunStages,
         ValidReloc;
    PassesRun(job, p);
    var env := EnvRun(job, p);
    RecordsMeaning(env, |env.lows|, k);
    var before := RunRecords(env, k).value;
    var a0 := Attrs(RunStages(env, k, FirstStage(env, k, before), 3).value.packet, before.attr, before.used);
    VertexIsShown(env, k, i, RunAttrs(env, k, a0, i).value, p.reloc.recs[k], p.reloc.attr, p.reloc.used, x);
  }

  /**
   * From the draw to the vertex: where the numbers stay within 32 bits, every
   * readable attribute of the record in force shows all words of each vertex the
   * draw asks for, little-endian, where the record's address field points.
   */
  lemma DrawnVertexShown(job: Job, p: Passes, m: nat, x: nat, i: nat)
    requires Compiled(job, p) && DrawAt(p, m) && Draws(EnvOf(job, p.scan, p.lay), p.fin, p.fin.out[m], x)
    requires ReadableAttr(EnvRun(job, p), Shaders(p.fin.out, m) - 1, i)
    requires ArrayFits(p.fin.out[m]) && CountFits(p.fin.out, Shaders(p.fin.out, m) - 1)
    ensures var k := Shaders(p.fin.out, m) - 1;
            && k < |p.reloc.recs| && |p.reloc.recs[k]| == RecordSize(EnvRun(job, p).lows[k])
            && VertexShown(EnvRun(job, p), k, i, p.reloc.recs[k], p.reloc.attr, x)
  {
    hide Compiled, EnvRun, EnvOf, Draws, Shaders, ReadableAttr, VertexShown, ArrayFits, CountFits, VertexCount;
    DrawnCopied(job, p, m);
    VertexInImage(job, p, Shaders(p.fin.out, m) - 1, i, x);
  }

  // ---- Uniforms ----

  /** Word d of stage i of record k, in the uniform section, where the record's uniform field points. */
  predicate UniformShown(env: RelocEnv, k: nat, i: nat, before: Stage, packet: seq<byte>, uniforms: seq<byte>, d: nat)
    requires ValidReloc(env) && k < |env.lows| && RecordInSource(env, k) && i < 3 && |packet| == RecordSize(env.lows[k])
    requires Resolve(env.handles, HandleIndex(env, k, i)).Some?
    requires var bo := Resolve(env.handles, HandleIndex(env, k, i)).value;
             before.taken + |bo.samples| + bo.uniformsSize / 4 <= |env.uniforms| && d < bo.uniformsSize / 4
  {
    var start := ReadLe(packet, UniformField(i));
    var at := start - env.uniformsBus + 4 * d;
    0 <= at && at + 4 <= |uniforms| && ReadLe(uniforms, at) == StageStream(env, k, i, before.taken, start)[d]
  }

  lemma StageReads(env: RelocEnv, k: nat, i: nat, before: Stage, after: Stage, packet: seq<byte>, words: seq<u32>,
                   uniforms: seq<byte>, d: nat)
    requires ValidReloc(env) && k < |env.lows| && RecordInSource(env, k) && i < 3 && |packet| == RecordSize(env.lows[k])
    requires StageShown(env, k, i, before, after, packet, words) && WordsPlaced(uniforms, words)
    requires env.uniformsBus + 4 * |words| <= U32_MAX
    ensures Resolve(env.handles, HandleIndex(env, k, i)).Some?
    ensures var bo := Resolve(env.handles, HandleIndex(env, k, i)).value;
            && before.taken + |bo.samples| + bo.uniformsSize / 4 <= |env.uniforms|
            && (d < bo.uniformsSize / 4 ==> UniformShown(env, k, i, before, packet, uniforms, d))
  {
    hide PacketBytes, Serialize, ReadLe, StageStream, StreamWords, CodeAddress;
    var n := |StageStream(env, k, i, before.taken, ReadLe(packet, UniformField(i)))|;
    assert n == |after.words| - |before.words|;
    if d < n {
      var at := |before.words| + d;
      WrapSmall(env.uniformsBus + 4 * |before.words|);
      SerializedWord(words, at);
      SameBytes(uniforms, Serialize(words), 4 * at);
      assert words[|before.words|..|after.words|][d] == words[at];
    }
    StreamLength(env, k, i, before.taken, ReadLe(packet, UniformField(i)));
  }

  lemma StreamLength(env: RelocEnv, k: nat, i: nat, taken: nat, start: u32)
    requires ValidReloc(env) && k < |env.lows| && RecordInSource(env, k) && i < 3
    requires Resolve(env.handles, HandleIndex(env, k, i)).Some?
    requires var bo := Resolve(env.handles, HandleIndex(env, k, i)).value;
             taken + |bo.samples| + bo.uniformsSize / 4 <= |env.uniforms|
    ensures |StageStream(env, k, i, taken, start)|
              == Resolve(env.handles, HandleIndex(env, k, i)).value.uniformsSize / 4
  {
  }

  lemma SameBytes(s: seq<byte>, t: seq<byte>, i: nat)
    requires Holds(s, 0, t) && i + 4 <= |t|
    ensures i + 4 <= |s| && ReadLe(s, i) == ReadLe(t, i)
  {
    assert forall j :: 0 <= j < |t| ==> s[j] == s[0..|t|][j];
  }

  /** The state in which stage i of record k is reached. */
  function StageAt(env: RelocEnv, k: nat, i: nat): (st: Option<Stage>)
    requires ValidReloc(env) && k < |env.lows| && i <= 3
  {
    match RunRecords(env, k)
    case None => None
    case Some(r) => if RecordInSource(env, k) then RunStages(env, k, FirstStage(env, k, r), i) else None
  }

  lemma StagesShown(env: RelocEnv, n: nat, k: nat, i: nat)
    requires ValidReloc(env) && k < n <= |env.lows| && i < 3 && RunRecords(env, n).Some?
    ensures RecordInSource(env, k) && StageAt(env, k, i).Some? && StageAt(env, k, i + 1).Some?
    ensures var r := RunRecords(env, n).value;
            && |r.words| <= |env.uniforms| && |r.recs[k]| == RecordSize(env.lows[k])
            && StageShown(env, k, i, StageAt(env, k, i).value, StageAt(env, k, i + 1).value, r.recs[k], r.words)
  {
    hide RunRecords, RunStages, StageShown, AttrShown, RunAttrs, PacketBytes, ReadLe, RecordInSource;
    RecordsMeaning(env, n, k);
    var st0 := FirstStage(env, k, RunRecords(env, k).value);
    assert RunStages(env, k, st0, 0) == Some(st0) by {
      NoStages(env, k, st0);
    }
  }

  lemma NoStages(env: RelocEnv, k: nat, st: Stage)
    requires ValidReloc(env) && k < |env.lows| && RecordInSource(env, k)
    requires |st.packet| == RecordSize(env.lows[k]) && |st.words| <= st.taken <= |env.uniforms|
    ensures RunStages(env, k, st, 0) == Some(st)
  {
  }

  /** Every uniform word of every stage of every record of an accepted submission is read back from the image. */
  lemma UniformsShown(job: Job, p: Passes, image: Image, k: nat, i: nat, d: nat)
    requires Compiled(job, p) && k < |p.fin.lows| && i < 3
    requires |p.reloc.recs| <= |p.fin.lows| && Holding(job, p, image)
    requires ValidReloc(EnvRun(job, p)) && k < |EnvRun(job, p).lows|
    ensures k < |p.reloc.recs| && |p.reloc.recs[k]| == RecordSize(EnvRun(job, p).lows[k])
    ensures RecordInSource(EnvRun(job, p), k) && StageAt(EnvRun(job, p), k, i).Some?
    ensures Resolve(EnvRun(job, p).handles, HandleIndex(EnvRun(job, p), k, i)).Some?
    ensures var env := EnvRun(job, p);
            var bo, before := Resolve(env.handles, HandleIndex(env, k, i)).value, StageAt(env, k, i).value;
            && before.taken + |bo.samples| + bo.uniformsSize / 4 <= |env.uniforms|
            && (d < bo.uniformsSize / 4 ==> UniformShown(env, k, i, before, p.reloc.recs[k], image.uniforms, d))
  {
    hide Compiled, Compile, EnvRun, Placed, ValidEnv, Prescan, BinResult, RunRecords, RecordInSource, StageShown,
         StageAt, HandleIndex, ValidReloc, UniformShown, EncodeAll, PacketsPlaced, WordsPlaced, ReadLe;
    PassesRun(job, p);
    SectionsFit(job, p);
    var env := EnvRun(job, p);
    StagesShown(env, |env.lows|, k, i);
    StageReads(env, k, i, StageAt(env, k, i).value, StageAt(env, k, i + 1).value, p.reloc.recs[k], p.reloc.words,
               image.uniforms, d);
  }
}
