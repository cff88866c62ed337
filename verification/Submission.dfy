/**
 * do_submit_cl from the caller's lists to what the V3D is given: every pass is
 * run on buffers of the size the pass before it found.
 */
module Submission {
  import opened Bytes
  import opened Packets
  import opened Buffers
  import opened BinList
  import opened BinMeaning
  import opened BinSizing
  import opened BinExec
  import opened ShaderRecs
  import opened RecordSizing
  import opened ShaderExec
  import opened AttrPrescan
  import opened RenderList
  import opened BuildRcl
  import opened SubmitLayout

  /** A submission and the bus addresses of its pool buffers. args still lacks what the binner list decides. */
  datatype Job = Job(
    bin: seq<byte>, rec: seq<byte>, uniforms: seq<u32>, handles: Handles, args: RclArgs,
    execBus: u32, tileBus: u32, attrBus: u32)

  /** Contents of the pool buffers. */
  datatype Image = Image(
    bin: seq<byte>, index: seq<byte>, rec: seq<byte>, uniforms: seq<byte>, attr: seq<byte>, rcl: seq<byte>)

  predicate ValidJob(job: Job) {
    && ValidHandles(job.handles) && ValidArgs(job.args)
    && |job.bin| <= U32_MAX && |job.rec| <= U32_MAX && |job.uniforms| < 0x4000_0000
  }

  // ---- The binner pass ----

  function FirstScan(job: Job): Option<Scan>
    requires ValidJob(job)
  {
    Prescan(Scan(0, job.args.maxX + 1, job.args.maxY + 1), job.bin)
  }

  function SizesOf(job: Job, scan: Scan): Sizes
    requires ValidJob(job)
  {
    Sizes(|job.bin|, |job.rec|, 4 * |job.uniforms|, Wrap(scan.indexSize))
  }

  /** Exec buffer and tile buffer lie in the 32-bit bus space, their sections in order and inside. */
  predicate Placed(job: Job, scan: Scan, lay: Layout)
    requires ValidJob(job)
  {
    && scan.indexSize <= U32_MAX && scan.indexSize % 4 == 0 && job.execBus % 16 == 0 && lay.recAt % 16 == 0
    && |job.bin| + 19 <= lay.recAt && lay.recAt + |job.rec| <= lay.uniformsAt
    && lay.uniformsAt + 4 * |job.uniforms| <= lay.indexAt && lay.indexAt + scan.indexSize <= lay.execSize
    && job.execBus + lay.execSize <= U32_MAX
    && job.tileBus + lay.tileAlloc + lay.tileAllocSize <= U32_MAX
  }

  /** The layout do_submit_cl computes. */
  function LayoutFor(job: Job, scan: Scan): Layout
    requires ValidJob(job)
  {
    LayoutOf(SizesOf(job, scan), Tiles(scan))
  }

  /** It places the sections well wherever the unwrapped total of the exec buffer fits 32 bits. */
  lemma LayoutPlaced(job: Job, scan: Scan)
    requires ValidJob(job) && scan.indexSize <= U32_MAX && scan.indexSize % 4 == 0
    requires job.execBus % 4096 == 0 && ExecTotal(SizesOf(job, scan)) <= U32_MAX - job.execBus
    requires job.tileBus + TileAllocOffset(Tiles(scan)) + TileAllocSize(Tiles(scan)) <= U32_MAX
    ensures Placed(job, scan, LayoutFor(job, scan))
  {
    hide RecAt, UniformsAt, IndexAtOffset, ExecSize, ExecTotal, TileAllocOffset, TileAllocSize, Tiles;
    WrapSmall(scan.indexSize);
    MultipleMod(job.execBus / 4096 * 256, 16);
    LayoutSoundExactly(SizesOf(job, scan));
    ExecSizeIsTotal(SizesOf(job, scan));
    WrapSmall(ExecTotal(SizesOf(job, scan)));
  }

  function Need(job: Job): nat {
    |job.bin| / 5 + 1
  }

  function EnvOf(job: Job, scan: Scan, lay: Layout): BinEnv
    requires ValidJob(job)
  {
    BinEnv(job.handles, Wrap(job.execBus + lay.indexAt), scan.indexSize,
           Wrap(job.tileBus + lay.tileAlloc), Wrap(lay.tileAllocSize), job.tileBus,
           Wrap(job.execBus + lay.recAt), Need(job))
  }

  lemma EnvPlaced(job: Job, scan: Scan, lay: Layout)
    requires ValidJob(job) && Placed(job, scan, lay)
    ensures ValidEnv(EnvOf(job, scan, lay)) && EnvOf(job, scan, lay).recBus == job.execBus + lay.recAt
    ensures EnvOf(job, scan, lay).scratchBus + scan.indexSize <= U32_MAX
  {
    hide Wrap;
    SumAligned(job.execBus, lay.recAt);
    WrapSmall(job.execBus + lay.recAt);
    WrapSmall(job.execBus + lay.indexAt);
  }

  function Start(job: Job, scan: Scan, lay: Layout): BinState
    requires ValidJob(job) && Placed(job, scan, lay)
  {
    EnvPlaced(job, scan, lay);
    InitState(EnvOf(job, scan, lay), job.args.maxX + 1, job.args.maxY + 1, seq(scan.indexSize, i => 0))
  }

  function BinResult(job: Job, scan: Scan, lay: Layout): (r: Option<BinState>)
    requires ValidJob(job) && Placed(job, scan, lay)
    ensures r.Some? ==> ValidState(EnvOf(job, scan, lay), r.value)
  {
    EnvPlaced(job, scan, lay);
    ProcessedList(EnvOf(job, scan, lay), Start(job, scan, lay), job.bin)
  }

  /** How the binner pass starts. */
  lemma Started(job: Job, scan: Scan, lay: Layout)
    requires ValidJob(job) && Placed(job, scan, lay)
    ensures var env, st := EnvOf(job, scan, lay), Start(job, scan, lay);
            && ValidEnv(env) && ValidState(env, st)
            && env.slotsMax == Need(job) && env.scratchSize == scan.indexSize && 5 * Need(job) > |job.bin|
            && st.lows == [] && st.out == [] && st.recPos == env.recBus && st.used == 0
            && st.tilesX == job.args.maxX + 1 && st.tilesY == job.args.maxY + 1
            && BinResult(job, scan, lay) == ProcessedList(env, st, job.bin)
  {
    hide Placed, ProcessedList;
    EnvPlaced(job, scan, lay);
  }

  /**
   * With scratch and slots sized by the prescan the binner pass refuses nothing
   * but malformed lists, index ranges outside their buffers, and lists of nothing
   * but GEM_HANDLES; it uses the scratch to the byte and never runs out of slots.
   */
  lemma BinnerPass(job: Job, scan: Scan, lay: Layout)
    requires ValidJob(job) && FirstScan(job) == Some(scan) && Placed(job, scan, lay) && job.bin != []
    ensures var st, ps := Start(job, scan, lay), Walk(true, job.bin);
            && ValidEnv(EnvOf(job, scan, lay))
            && (BinResult(job, scan, lay).Some? <==>
                  && ps.Some? && RangesInBuffers(EnvOf(job, scan, lay), ContextOf(st), ps.value)
                  && GemCount(ps.value) < |ps.value|)
    ensures BinResult(job, scan, lay).Some? ==>
              && BinResult(job, scan, lay).value.used == scan.indexSize
              && |BinResult(job, scan, lay).value.lows| < Need(job)
  {
    hide Compile, Prescan, Walk, RangesInBuffers, IndexNeed, EnvOf, Start, Placed, BinResult;
    var acc := Scan(0, job.args.maxX + 1, job.args.maxY + 1);
    var env, st := EnvOf(job, scan, lay), Start(job, scan, lay);
    Started(job, scan, lay);
    if Walk(true, job.bin).Some? {
      PrescanIsNeed(acc, job.bin);
    }
    ListAcceptedExactly(env, st, job.bin);
    if Compile(env, st, job.bin).Some? {
      IndexScratchPredicted(env, st, job.bin, acc);
      ShaderStatesBounded(env, st, job.bin);
    }
  }

  // ---- The record pass ----

  /** The record pass on what the binner pass found, with size bytes of vertex scratch, if any, zeroes at first. */
  function RecordEnv(job: Job, scan: Scan, lay: Layout, lows: seq<u32>, maxes: seq<u32>, size: nat): RelocEnv
    requires ValidJob(job)
  {
    RelocEnv(job.handles, job.rec, lows, maxes, job.uniforms, Wrap(job.execBus + lay.uniformsAt),
             if size == 0 then 0 else job.attrBus, size, seq(size + BEHIND, i => 0))
  }

  /** The sizing pass. */
  function AttrSize(job: Job, scan: Scan, lay: Layout, fin: BinState): Option<nat>
    requires ValidJob(job) && ValidState(EnvOf(job, scan, lay), fin)
  {
    ScanRecords(RecordEnv(job, scan, lay, fin.lows, fin.maxes, 0), |fin.lows|)
  }

  /** The record pass with the scratch the sizing pass asked for, which lies in the bus space. */
  function RecordResult(job: Job, scan: Scan, lay: Layout, fin: BinState): (r: Option<Reloc>)
    requires ValidJob(job) && ValidState(EnvOf(job, scan, lay), fin)
    requires AttrPlaced(job, scan, lay, fin)
    ensures r.Some? ==> |r.value.recs| == |fin.lows|
  {
    match AttrSize(job, scan, lay, fin)
    case None => None
    case Some(size) => RunRecords(RecordEnv(job, scan, lay, fin.lows, fin.maxes, size), |fin.lows|)
  }

  predicate AttrPlaced(job: Job, scan: Scan, lay: Layout, fin: BinState)
    requires ValidJob(job) && ValidState(EnvOf(job, scan, lay), fin)
  {
    match AttrSize(job, scan, lay, fin)
    case None => true
    case Some(size) => job.attrBus + size <= U32_MAX
  }

  /** Nothing the record pass writes is lost: the three buffers hold its records, words and vertices. */
  ghost predicate RecordsHeld(lows: seq<u32>, reloc: Reloc, rec: seq<byte>, uniforms: seq<byte>, attr: seq<byte>)
    requires |reloc.recs| <= |lows|
  {
    PacketsPlaced(rec, lows, reloc.recs) && WordsPlaced(uniforms, reloc.words) && attr == reloc.attr
  }

  /** Size the vertex scratch, then relocate. */
  method RecordPass(job: Job, scan: Scan, lay: Layout, lows: seq<u32>, maxes: seq<u32>, ghost fin: BinState)
    returns (ok: bool, rec: seq<byte>, uniforms: seq<byte>, attr: seq<byte>)
    requires ValidJob(job) && ValidState(EnvOf(job, scan, lay), fin) && lows == fin.lows && maxes == fin.maxes
    requires AttrPlaced(job, scan, lay, fin)
    ensures ok == RecordResult(job, scan, lay, fin).Some?
    ensures ok ==> RecordsHeld(lows, RecordResult(job, scan, lay, fin).value, rec, uniforms, attr)
  {
    hide ScanRecords, RunRecords, PacketsPlaced, WordsPlaced, EnvOf;
    rec, uniforms, attr := [], [], [];
    var size := SizeRecords(RecordEnv(job, scan, lay, lows, maxes, 0));
    if size.None? {
      return false, rec, uniforms, attr;
    }
    var env := RecordEnv(job, scan, lay, lows, maxes, size.value);
    var out := new byte[|env.rec|](i => 0);
    var uni := new byte[4 * |env.uniforms|](i => 0);
    var scratch := new byte[size.value + BEHIND](i => 0);
    assert scratch[..] == env.scratch;
    var r := new RelocExec(env, out, uni, scratch);
    ok := r.Relocate();
    rec, uniforms, attr := out[..], uni[..], scratch[..];
  }

  // ---- All passes ----

  /** The layout and the states an accepted submission's passes leave. */
  datatype Passes = Passes(scan: Scan, lay: Layout, fin: BinState, reloc: Reloc)

  /** Prescan, binner pass, sizing and relocation all accept, and this is what they leave. */
  predicate Accepts(job: Job, p: Passes)
    requires ValidJob(job)
  {
    && FirstScan(job) == Some(p.scan) && Placed(job, p.scan, p.lay) && BinResult(job, p.scan, p.lay) == Some(p.fin)
    && AttrPlaced(job, p.scan, p.lay, p.fin) && RecordResult(job, p.scan, p.lay, p.fin) == Some(p.reloc)
  }

  /** What the pool gives: every buffer inside the 32-bit bus space. */
  predicate Sane(job: Job, lay: Layout)
    requires ValidJob(job)
  {
    match FirstScan(job)
    case None => true
    case Some(scan) =>
      && lay == LayoutFor(job, scan) && Placed(job, scan, lay)
      && match BinResult(job, scan, lay)
         case None => true
         case Some(fin) => AttrPlaced(job, scan, lay, fin)
  }

  function RenderArgs(job: Job, lay: Layout, tilesX: u32): RclArgs {
    job.args.(tileAllocBus := Wrap(job.tileBus + lay.tileAlloc), binTilesX := tilesX)
  }

  /** Every buffer holds exactly what its pass computes. */
  ghost predicate Holding(job: Job, p: Passes, image: Image)
    requires ValidJob(job) && |p.reloc.recs| <= |p.fin.lows|
  {
    && image.bin == EncodeAll(p.fin.out) && image.index == p.fin.scratch
    && RecordsHeld(p.fin.lows, p.reloc, image.rec, image.uniforms, image.attr)
    && image.rcl == EncodeOps(RclOps(RenderArgs(job, p.lay, p.fin.tilesX)))
  }

  /** What the later passes take from the binner pass. */
  predicate Handed(fin: BinState, index: seq<byte>, lows: seq<u32>, maxes: seq<u32>, tilesX: u32) {
    index == fin.scratch && lows == fin.lows && maxes == fin.maxes && tilesX == fin.tilesX
  }

  method BinPass(job: Job, scan: Scan, lay: Layout)
    returns (bin: Option<seq<byte>>, index: seq<byte>, lows: seq<u32>, maxes: seq<u32>, tilesX: u32)
    requires ValidJob(job) && Placed(job, scan, lay)
    ensures match BinResult(job, scan, lay)
            case None => bin == None
            case Some(fin) => bin == Some(EncodeAll(fin.out)) && Handed(fin, index, lows, maxes, tilesX)
  {
    hide ProcessedList, EncodeAll, ValidState, Placed, EnvOf, BinResult, InitState, ValidEnv;
    Started(job, scan, lay);
    var env := EnvOf(job, scan, lay);
    var slots := new u32[2 * Need(job)](i => 0);
    var scratch := new byte[scan.indexSize](i => 0);
    var dst := new byte[|job.bin| + 256](i => 0);
    assert scratch[..] == seq(scan.indexSize, i => 0);
    var exec := new Exec(env, slots, Need(job), scratch, job.args.maxX + 1, job.args.maxY + 1);
    var r := exec.ProcessBinCl(job.bin, dst, |job.bin| + 256);
    index, lows, maxes, tilesX :=
      scratch[..], slots[..exec.count], slots[Need(job)..Need(job) + exec.count], exec.tilesX;
    bin := if r == 0 then None else Some(dst[..r]);
  }

  /** build_rcl in a buffer of the estimated size: it always fits. */
  method RclPass(a: RclArgs) returns (rcl: seq<byte>)
    requires ValidArgs(a)
    ensures rcl == EncodeOps(RclOps(a))
  {
    hide EncodeOps, RclOps;
    var data := new byte[RclMaxSize(a)](i => 0);
    RenderListFits(a);
    var ok, size := BuildRenderList(a, data, RclMaxSize(a));
    rcl := data[..size];
  }

  /**
   * do_submit_cl up to the point where the V3D is started, with the layout it
   * computes: it fails exactly where one of the passes refuses, and otherwise the
   * buffers hold what they compute.
   */
  method CompileSubmission(job: Job, ghost lay: Layout) returns (image: Option<Image>, ghost p: Passes)
    requires ValidJob(job) && Sane(job, lay)
    ensures image.Some? ==>
              p.lay == lay && Accepts(job, p) && |p.reloc.recs| <= |p.fin.lows| && Holding(job, p, image.value)
    ensures image.None? ==> forall q: Passes :: Accepts(job, q) ==> q.lay != lay
  {
    hide RecordsHeld, EncodeAll, EncodeOps, RclOps, BinResult, RecordResult, Prescan, Placed, ValidState, EnvOf,
         AttrSize, LayoutFor;
    p := Passes(Scan(0, 0, 0), lay, BinState(0, 0, 0, 0, [], [], 0, [], 0, 0, 0, []), Reloc([], [], [], 0, 0));
    var first := PrescanList(job.bin, job.args.maxX + 1, job.args.maxY + 1);
    if first.None? {
      return None, p;
    }
    var scan := first.value;
    var plan := LayoutFor(job, scan);
    var bin, index, lows, maxes, tilesX := BinPass(job, scan, plan);
    if bin.None? {
      return None, p;
    }
    ghost var fin := BinResult(job, scan, lay).value;
    var ok, rec, uniforms, attr := RecordPass(job, scan, plan, lows, maxes, fin);
    if !ok {
      return None, p;
    }
    var rcl := RclPass(RenderArgs(job, plan, tilesX));
    image := Some(Image(bin.value, index, rec, uniforms, attr, rcl));
    p := Passes(scan, lay, fin, RecordResult(job, scan, lay, fin).value);
  }
}
