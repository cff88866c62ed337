/** Two submissions that every pass accepts although their draw asks for vertices that are not copied. */
module ShortDraws {
  import opened Bytes
  import opened Packets
  import opened Buffers
  import opened BinList
  import opened DrawMeaning
  import opened BinSizing
  import opened VertexSwap
  import opened ShaderRecs
  import opened RecordSizing
  import opened NarrowRecord
  import opened RenderList
  import opened SubmitLayout
  import opened Submission
  import opened SubmissionMeaning

  /** One tile, one shader record of one attribute, its vertex buffer, and the list that draws with it. */
  function ShortJob(bin: seq<byte>): Job {
    Job(bin, Source(4), [], Handles([1], Table()),
        RclArgs(0, 0, 0, 0, 64, 64, false, 0, 0, 0, 0, false, false, false, None, None, 0, None, None, None, None,
                0, 1),
        0x10_0000, 0x20_0000, 0x40_0000)
  }

  lemma ShortValid(bin: seq<byte>)
    requires |bin| <= 19
    ensures ValidJob(ShortJob(bin))
  {
    TableValid();
  }

  /** Such a list needs no index scratch. */
  lemma ShortScan(bin: seq<byte>, draw: Packet)
    requires TwoPackets(bin, draw)
    ensures Prescan(Scan(0, 1, 1), bin) == Some(Scan(0, 1, 1))
  {
    var acc, rest := Scan(0, 1, 1), bin[5..];
    assert Decode(true, bin[..5]).ShaderState?;
    assert rest[..PacketSize(rest[0])] == rest && rest[PacketSize(rest[0])..] == [];
    assert Prescan(acc, []) == Some(acc);
    assert Prescan(acc, rest) == Some(acc);
  }

  /** The layout the driver computes for it lies in the bus space. */
  lemma ShortPlaced(bin: seq<byte>)
    requires |bin| <= 19 && ValidJob(ShortJob(bin))
    ensures Placed(ShortJob(bin), Scan(0, 1, 1), LayoutFor(ShortJob(bin), Scan(0, 1, 1)))
  {
    TimesIs(1, 1);
    LayoutPlaced(ShortJob(bin), Scan(0, 1, 1));
  }

  /** The sizing pass asks for one vertex of four bytes, or for none where the count wraps to 0. */
  lemma ShortSize(env: RelocEnv)
    requires OneRecord(env, 4) && env.maxes[0] in {0, U32_MAX}
    ensures ScanRecords(env, 1) == Some(if env.maxes[0] == 0 then 16 else 0)
  {
    Shape(env, 4);
    hide PacketBytes, Source, Table, RecordInSource;
    LeadIs(4, VertexCount(env, 0));
    assert ScanRecords(env, 0) == Some(0);
    assert ScanAttrs(env, 0, 0, 0) == Some(0);
    assert ScanAttrs(env, 0, 0, 1) == ScanAttr(env, 0, 0, 0);
  }

  /** And with that much scratch the record is relocated. */
  lemma ShortRelocated(env: RelocEnv)
    requires OneRecord(env, 4) && env.maxes[0] in {0, U32_MAX} && env.attrSize == if env.maxes[0] == 0 then 16 else 0
    ensures RunRecords(env, 1).Some?
  {
    Shape(env, 4);
    hide PacketBytes, Source, RecordInSource, RunRecords;
    LeadIs(4, VertexCount(env, 0));
    assert AttrRangeOk(env, 0, 0, 0);
    OneRuns(env, 4);
  }

  /** Every pass accepts. */
  lemma ShortAccepted(bin: seq<byte>, draw: Packet)
    returns (p: Passes)
    requires TwoPackets(bin, draw) && |bin| <= 19 && Noted(draw) in {0, U32_MAX}
    ensures Compiled(ShortJob(bin), p) && p.lay == LayoutFor(ShortJob(bin), p.scan)
    ensures p.fin.maxes == [Noted(draw)] && |p.fin.out| == 2 && Shaders(p.fin.out, 1) == 1
    ensures SameDraw(draw, p.fin.out[1])
  {
    hide Prescan, Compile, Placed, EnvOf, Start, LayoutFor, Source, Table, ScanRecords, RunRecords;
    var job, scan := ShortJob(bin), Scan(0, 1, 1);
    ShortValid(bin);
    ShortScan(bin, draw);
    ShortPlaced(bin);
    var lay := LayoutFor(job, scan);
    Started(job, scan, lay);
    CompileTwo(EnvOf(job, scan, lay), Start(job, scan, lay), bin, draw);
    var fin := BinResult(job, scan, lay).value;
    ShortSize(RecordEnv(job, scan, lay, fin.lows, fin.maxes, 0));
    var size := AttrSize(job, scan, lay, fin).value;
    ShortRelocated(RecordEnv(job, scan, lay, fin.lows, fin.maxes, size));
    p := Passes(scan, lay, fin, RecordResult(job, scan, lay, fin).value);
  }

  /** An array draw of the vertices 2^32 - 1 and 2^32 is accepted, its record sized for vertex 0 alone. */
  lemma WrappingHappens()
    returns (job: Job, p: Passes)
    ensures Compiled(job, p) && p.lay == LayoutFor(job, p.scan) && DrawAt(p, 1)
    ensures p.fin.out[1] == ArrayPrim(4, 2, 0xFFFF_FFFF) && p.fin.maxes == [0]
    ensures !ArrayFits(p.fin.out[1]) && CountFits(p.fin.out, 0)
  {
    hide Compiled, LayoutFor;
    WrappingIs();
    job := ShortJob(WRAPPING);
    p := ShortAccepted(WRAPPING, ArrayPrim(4, 2, 0xFFFF_FFFF));
    MaximaMeaning(job, p);
    MaximumFits(p.fin, 0);
  }

  /** So is a draw whose packet gives 2^32 - 1 as its largest index, and no vertex at all is copied. */
  lemma FullHappens()
    returns (job: Job, p: Passes)
    ensures Compiled(job, p) && p.lay == LayoutFor(job, p.scan) && DrawAt(p, 1)
    ensures p.fin.out[1].Indexed? && p.fin.maxes == [U32_MAX]
    ensures ArrayFits(p.fin.out[1]) && !CountFits(p.fin.out, 0)
    ensures 0 < |EnvRun(job, p).maxes| && VertexCount(EnvRun(job, p), 0) == 0
  {
    hide Compiled, LayoutFor;
    FullIs();
    job := ShortJob(FULL);
    p := ShortAccepted(FULL, Indexed(4, 2, 0, 0xFFFF_FFFF));
    MaximaMeaning(job, p);
    MaximumFits(p.fin, 0);
    PassesRun(job, p);
  }
}
