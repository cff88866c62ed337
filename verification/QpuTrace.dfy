/** What scan_shader_qpu finds, against the trace of what a shader does to its uniform stream. */
module QpuTrace {
  import opened Bytes
  import opened Buffers
  import opened QpuScan

  // ---- The trace of a shader ----

  function Pow2(n: nat): (r: nat)
    ensures r > 0
  {
    if n == 0 then 1 else 2 * Pow2(n - 1)
  }

  /** Bits lo to lo + n - 1 of an instruction. */
  function Bits(inst: u64, lo: nat, n: nat): nat {
    inst / Pow2(lo) % Pow2(n)
  }

  /** A parameter write or submission of a texture unit, a reset of the stream, a read of its next word. */
  datatype Effect = Texture(unit: nat, submit: bool) | Reset | Read

  /** TMU0_S to TMU0_B are 56 to 59, TMU1_S to TMU1_B 60 to 63; UNIFORMS_ADDRESS is 40. */
  function WriteEffects(waddr: nat): seq<Effect> {
    if waddr == 40 then [Reset]
    else if 56 <= waddr < 60 then [Texture(0, waddr == 56)]
    else if 60 <= waddr < 64 then [Texture(1, waddr == 60)]
    else []
  }

  /** Signal in bits 60 to 63: 15 is a branch, 14 an immediate load, 13 a small immediate in place of port B. */
  predicate ReadsStream(inst: u64) {
    Bits(inst, 60, 4) != 14 && (Bits(inst, 18, 6) == 32 || (Bits(inst, 12, 6) == 32 && Bits(inst, 60, 4) != 13))
  }

  function InstEffects(inst: u64): seq<Effect> {
    if Bits(inst, 60, 4) == 15 then []
    else
      WriteEffects(Bits(inst, 38, 6)) + WriteEffects(Bits(inst, 32, 6)) + (if ReadsStream(inst) then [Read] else [])
  }

  function Trace(code: seq<u64>): seq<Effect> {
    if code == [] then [] else Trace(code[..|code| - 1]) + InstEffects(code[|code| - 1])
  }

  lemma FieldsAre(inst: u64)
    ensures Signal(inst) == Bits(inst, 60, 4) && RaddrA(inst) == Bits(inst, 18, 6) && RaddrB(inst) == Bits(inst, 12, 6)
    ensures Waddr(inst, 0) == Bits(inst, 38, 6) && Waddr(inst, 1) == Bits(inst, 32, 6)
    ensures ReadsUniform(inst) <==> ReadsStream(inst)
  {
    PowersAre();
  }

  lemma PowersAre()
    ensures Pow2(4) == 16 && Pow2(6) == 64 && Pow2(12) == 0x1000 && Pow2(18) == 0x4_0000
    ensures Pow2(32) == 0x1_0000_0000 && Pow2(38) == 0x40_0000_0000 && Pow2(60) == 0x1000_0000_0000_0000
  {
    PowSum(12, 6);
    PowSum(18, 14);
    PowSum(12, 2);
    PowSum(32, 6);
    PowSum(38, 22);
    PowSum(18, 4);
  }

  lemma {:induction false} PowSum(m: nat, n: nat)
    ensures Pow2(m + n) == Pow2(m) * Pow2(n)
    decreases n
  {
    if n > 0 {
      PowSum(m, n - 1);
    }
  }

  // ---- Words of the stream ----

  predicate Below(ps: seq<nat>, n: nat) {
    forall a :: 0 <= a < |ps| ==> ps[a] < n
  }

  /** The writes to a unit since its last submission, by position. */
  function Pending(tr: seq<Effect>, unit: nat): (ps: seq<nat>)
    ensures Below(ps, |tr|)
  {
    if tr == [] then []
    else
      var front, last := tr[..|tr| - 1], tr[|tr| - 1];
      if !last.Texture? || last.unit != unit then Pending(front, unit)
      else if last.submit then []
      else Pending(front, unit) + [|tr| - 1]
  }

  /** Effect p takes a word: a read, or a write that is not a submission without parameters. */
  predicate Pops(tr: seq<Effect>, p: nat)
    requires p < |tr|
  {
    match tr[p]
    case Read => true
    case Reset => false
    case Texture(unit, submit) => !submit || Pending(tr[..p], unit) != []
  }

  /** Words taken by a trace. */
  function Words(tr: seq<Effect>): nat {
    if tr == [] then 0 else Words(tr[..|tr| - 1]) + (if Pops(tr, |tr| - 1) then 1 else 0)
  }

  /** Four bytes for every word taken before each of the effects. */
  function OffsetsAt(tr: seq<Effect>, ps: seq<nat>): (r: seq<nat>)
    requires Below(ps, |tr| + 1)
    ensures |r| == |ps|
  {
    seq(|ps|, a requires 0 <= a < |ps| => 4 * Words(tr[..ps[a]]))
  }

  function First(n: nat, ps: seq<nat>): (r: seq<nat>)
    ensures |r| == if |ps| < n then |ps| else n
    ensures r <= ps
  {
    if |ps| < n then ps else ps[..n]
  }

  /** The writes of the submission at p, itself the last. */
  function WritesOf(tr: seq<Effect>, p: nat): (ps: seq<nat>)
    requires p < |tr| && tr[p].Texture?
    ensures ps != [] && Below(ps, p + 1)
  {
    Pending(tr[..p], tr[p].unit) + [p]
  }

  /** Its sample: direct when it has no parameters; the offsets of its first four writes, in order. */
  predicate SampleIs(tr: seq<Effect>, p: nat, s: Sample)
    requires p < |tr| && tr[p].Texture?
  {
    && (s.isDirect <==> |WritesOf(tr, p)| == 1)
    && s.offsets == OffsetsAt(tr, First(4, WritesOf(tr, p)))
  }

  /** Positions of the submissions, and of the resets. */
  function Submits(tr: seq<Effect>): (ps: seq<nat>)
    ensures forall i :: 0 <= i < |ps| ==> ps[i] < |tr| && tr[ps[i]].Texture? && tr[ps[i]].submit
  {
    if tr == [] then []
    else
      var front, last := tr[..|tr| - 1], tr[|tr| - 1];
      Submits(front) + (if last.Texture? && last.submit then [|tr| - 1] else [])
  }

  function Resets(tr: seq<Effect>): (ps: seq<nat>)
    ensures forall i :: 0 <= i < |ps| ==> ps[i] < |tr| && tr[ps[i]].Reset?
  {
    if tr == [] then []
    else
      var front, last := tr[..|tr| - 1], tr[|tr| - 1];
      Resets(front) + (if last.Reset? then [|tr| - 1] else [])
  }

  // ---- The scan follows the trace ----

  ghost predicate UnitIs(tr: seq<Effect>, unit: nat, t: Tmu) {
    t.writes == |Pending(tr, unit)| && t.offsets == OffsetsAt(tr, First(4, Pending(tr, unit)))
  }

  ghost predicate SamplesAre(tr: seq<Effect>, samples: seq<Sample>) {
    && |samples| == (if |Submits(tr)| < 32 then |Submits(tr)| else 32)
    && forall i: nat :: i < |samples| ==> SampleIs(tr, Submits(tr)[i], samples[i])
  }

  ghost predicate AddrsAre(tr: seq<Effect>, addrs: seq<u32>) {
    && |addrs| == (if |Resets(tr)| < 16 then |Resets(tr)| else 16)
    && forall i: nat :: i < |addrs| ==> addrs[i] == Words(tr[..Resets(tr)[i]])
  }

  ghost predicate Follows(st: ScanState, tr: seq<Effect>) {
    && |st.tmu| == 2 && st.size == 4 * Words(tr) && UnitIs(tr, 0, st.tmu[0]) && UnitIs(tr, 1, st.tmu[1])
    && SamplesAre(tr, st.samples) && AddrsAre(tr, st.uniformAddrs)
  }

  lemma OffsetsKeep(tr: seq<Effect>, e: Effect, ps: seq<nat>)
    requires Below(ps, |tr| + 1)
    ensures OffsetsAt(tr + [e], ps) == OffsetsAt(tr, ps)
  {
    forall a | 0 <= a < |ps|
      ensures ps[a] <= |tr| && (tr + [e])[..ps[a]] == tr[..ps[a]]
    {
    }
  }

  lemma Front(tr: seq<Effect>, e: Effect)
    ensures (tr + [e])[..|tr + [e]| - 1] == tr && (tr + [e])[|tr + [e]| - 1] == e
  {
  }

  lemma UnitKeeps(tr: seq<Effect>, e: Effect, unit: nat, t: Tmu)
    requires UnitIs(tr, unit, t) && !(e.Texture? && e.unit == unit)
    ensures UnitIs(tr + [e], unit, t)
  {
    Front(tr, e);
    OffsetsKeep(tr, e, First(4, Pending(tr, unit)));
  }

  /** What the unit holds when a write is added, and what its submission then reports. */
  lemma UnitWrites(tr: seq<Effect>, unit: nat, t: Tmu)
    requires UnitIs(tr, unit, t)
    ensures var offsets := if t.writes < 4 then t.offsets + [4 * Words(tr)] else t.offsets;
            offsets == OffsetsAt(tr, First(4, Pending(tr, unit) + [|tr|]))
  {
    var ps := Pending(tr, unit);
    assert tr[..|tr|] == tr;
    if |ps| < 4 {
      assert First(4, ps + [|tr|]) == First(4, ps) + [|tr|];
    } else {
      assert First(4, ps + [|tr|]) == First(4, ps);
    }
  }

  lemma WriteWords(tr: seq<Effect>, e: Effect, t: Tmu)
    requires e.Texture? && UnitIs(tr, e.unit, t)
    ensures Words(tr + [e]) == Words(tr) + if e.submit && t.writes == 0 then 0 else 1
  {
    hide OffsetsAt, Pending;
    Front(tr, e);
    assert (tr + [e])[..|tr|] == tr;
  }

  /** The unit after its own write. */
  lemma UnitMoves(tr: seq<Effect>, e: Effect, t: Tmu)
    requires e.Texture? && UnitIs(tr, e.unit, t)
    ensures var offsets := if t.writes < 4 then t.offsets + [4 * Words(tr)] else t.offsets;
            && offsets == OffsetsAt(tr, First(4, Pending(tr, e.unit) + [|tr|]))
            && (!e.submit && 4 * Words(tr) <= U32_MAX ==> UnitIs(tr + [e], e.unit, Tmu(offsets, t.writes + 1)))
            && (e.submit ==> UnitIs(tr + [e], e.unit, IDLE))
  {
    hide OffsetsAt, Words, Pending;
    PendingSnoc(tr, e);
    UnitWrites(tr, e.unit, t);
    OffsetsKeep(tr, e, First(4, Pending(tr, e.unit) + [|tr|]));
    NoOffsets(tr + [e]);
  }

  lemma PendingSnoc(tr: seq<Effect>, e: Effect)
    requires e.Texture?
    ensures Pending(tr + [e], e.unit) == if e.submit then [] else Pending(tr, e.unit) + [|tr|]
  {
    Front(tr, e);
  }

  lemma NoOffsets(tr: seq<Effect>)
    ensures OffsetsAt(tr, []) == []
  {
  }

  lemma SampleKeeps(tr: seq<Effect>, e: Effect, p: nat, s: Sample)
    requires p < |tr| && tr[p].Texture?
    ensures SampleIs(tr + [e], p, s) == SampleIs(tr, p, s)
  {
    assert (tr + [e])[..p] == tr[..p];
    OffsetsKeep(tr, e, First(4, WritesOf(tr, p)));
  }

  lemma SamplesKeep(tr: seq<Effect>, e: Effect, samples: seq<Sample>)
    requires SamplesAre(tr, samples) && !(e.Texture? && e.submit)
    ensures SamplesAre(tr + [e], samples)
  {
    Front(tr, e);
    forall i: nat | i < |samples|
      ensures SampleIs(tr + [e], Submits(tr + [e])[i], samples[i])
    {
      SampleKeeps(tr, e, Submits(tr)[i], samples[i]);
    }
  }

  lemma NewSample(tr: seq<Effect>, e: Effect, t: Tmu, offsets: seq<u32>)
    requires e.Texture? && UnitIs(tr, e.unit, t)
    requires offsets == OffsetsAt(tr, First(4, Pending(tr, e.unit) + [|tr|]))
    ensures SampleIs(tr + [e], |tr|, Sample(t.writes == 0, offsets))
  {
    hide OffsetsAt, Pending;
    assert (tr + [e])[..|tr|] == tr;
    OffsetsKeep(tr, e, First(4, Pending(tr, e.unit) + [|tr|]));
  }

  lemma SamplesGrow(tr: seq<Effect>, e: Effect, t: Tmu, samples: seq<Sample>, offsets: seq<u32>)
    requires SamplesAre(tr, samples) && e.Texture? && e.submit && UnitIs(tr, e.unit, t)
    requires offsets == OffsetsAt(tr, First(4, Pending(tr, e.unit) + [|tr|]))
    ensures SamplesAre(tr + [e], if |samples| < 32 then samples + [Sample(t.writes == 0, offsets)] else samples)
  {
    hide OffsetsAt, Pending, SampleIs, UnitIs;
    Front(tr, e);
    var tr', all := tr + [e], Submits(tr);
    assert Submits(tr') == all + [|tr|];
    forall i: nat | i < |samples|
      ensures SampleIs(tr', Submits(tr')[i], samples[i])
    {
      SampleKeeps(tr, e, all[i], samples[i]);
    }
    NewSample(tr, e, t, offsets);
  }

  lemma AddrsKeep(tr: seq<Effect>, e: Effect, addrs: seq<u32>)
    requires AddrsAre(tr, addrs) && 4 * Words(tr) <= U32_MAX
    ensures AddrsAre(tr + [e], if e.Reset? && |addrs| < 16 then addrs + [Words(tr)] else addrs)
  {
    hide Words;
    Front(tr, e);
    var tr', all := tr + [e], Resets(tr);
    hide Resets;
    assert Resets(tr') == all + (if e.Reset? then [|tr|] else []) by {
      ResetsSnoc(tr, e);
    }
    assert tr'[..|tr|] == tr;
    forall i: nat | i < |all|
      ensures tr'[..all[i]] == tr[..all[i]]
    {
    }
  }

  lemma ResetsSnoc(tr: seq<Effect>, e: Effect)
    ensures Resets(tr + [e]) == Resets(tr) + if e.Reset? then [|tr|] else []
  {
    Front(tr, e);
  }

  /** One port's write. */
  lemma WriteFollows(st: ScanState, tr: seq<Effect>, waddr: nat)
    requires Follows(st, tr) && st.size + 4 <= U32_MAX
    ensures Follows(PortWrite(st, waddr), tr + WriteEffects(waddr))
  {
    hide UnitIs, SamplesAre, AddrsAre;
    if waddr == W_UNIFORMS_ADDRESS {
      ResetFollows(st, tr);
    } else if IsTmuWrite(waddr) {
      TextureFollows(st, tr, waddr);
    } else {
      assert tr + [] == tr;
    }
  }

  lemma ResetFollows(st: ScanState, tr: seq<Effect>)
    requires Follows(st, tr) && st.size + 4 <= U32_MAX
    ensures Follows(PortWrite(st, W_UNIFORMS_ADDRESS), tr + [Reset])
  {
    hide UnitIs, SamplesAre, AddrsAre;
    Front(tr, Reset);
    UnitKeeps(tr, Reset, 0, st.tmu[0]);
    UnitKeeps(tr, Reset, 1, st.tmu[1]);
    SamplesKeep(tr, Reset, st.samples);
    AddrsKeep(tr, Reset, st.uniformAddrs);
    AddrsCount(tr, st.uniformAddrs);
  }

  lemma AddrsCount(tr: seq<Effect>, addrs: seq<u32>)
    requires AddrsAre(tr, addrs)
    ensures |addrs| <= 16
  {
  }

  /** What a write to a texture unit does to the scan. */
  lemma TextureWrite(st: ScanState, waddr: nat)
    requires |st.tmu| == 2 && st.size + 4 <= U32_MAX && IsTmuWrite(waddr)
    ensures var st', k, submit := PortWrite(st, waddr), TmuOf(waddr), IsTmuSubmit(waddr);
            var t := st.tmu[k];
            var offsets := if t.writes < 4 then t.offsets + [st.size] else t.offsets;
            && |st'.tmu| == 2 && st'.uniformAddrs == st.uniformAddrs && st'.tmu[1 - k] == st.tmu[1 - k]
            && st'.tmu[k] == (if submit then IDLE else Tmu(offsets, t.writes + 1))
            && st'.size == st.size + (if submit && t.writes == 0 then 0 else 4)
            && st'.samples == if submit && |st.samples| < MAX_TEX_SAMPLES
                              then st.samples + [Sample(t.writes == 0, offsets)] else st.samples
    ensures WriteEffects(waddr) == [Texture(TmuOf(waddr), IsTmuSubmit(waddr))]
  {
  }

  lemma TextureFollows(st: ScanState, tr: seq<Effect>, waddr: nat)
    requires Follows(st, tr) && st.size + 4 <= U32_MAX && IsTmuWrite(waddr)
    ensures Follows(PortWrite(st, waddr), tr + WriteEffects(waddr))
  {
    hide SamplesAre, AddrsAre, OffsetsAt, UnitIs, PortWrite, WriteEffects, Words, Pending, IsTmuWrite, IsTmuSubmit;
    TextureWrite(st, waddr);
    var k := TmuOf(waddr);
    var e := Texture(k, IsTmuSubmit(waddr));
    UnitKeeps(tr, e, 1 - k, st.tmu[1 - k]);
    WriteWords(tr, e, st.tmu[k]);
    UnitMoves(tr, e, st.tmu[k]);
    AddrsKeep(tr, e, st.uniformAddrs);
    if e.submit {
      var offsets := if st.tmu[k].writes < 4 then st.tmu[k].offsets + [st.size] else st.tmu[k].offsets;
      SamplesGrow(tr, e, st.tmu[k], st.samples, offsets);
    } else {
      SamplesKeep(tr, e, st.samples);
    }
  }

  lemma ReadFollows(st: ScanState, tr: seq<Effect>)
    requires Follows(st, tr) && st.size + 4 <= U32_MAX
    ensures Follows(st.(size := st.size + 4), tr + [Read])
  {
    hide UnitIs, SamplesAre, AddrsAre;
    Front(tr, Read);
    UnitKeeps(tr, Read, 0, st.tmu[0]);
    UnitKeeps(tr, Read, 1, st.tmu[1]);
    SamplesKeep(tr, Read, st.samples);
    AddrsKeep(tr, Read, st.uniformAddrs);
  }

  lemma InstFollows(st: ScanState, tr: seq<Effect>, inst: u64)
    requires Follows(st, tr) && st.size + 12 <= U32_MAX
    ensures Follows(ScanInst(st, inst), tr + InstEffects(inst))
  {
    hide UnitIs, SamplesAre, AddrsAre, Words, WriteEffects, Bits, Signal, Waddr, ReadsUniform, ReadsStream;
    FieldsAre(inst);
    if Signal(inst) == SIG_BRANCH {
      assert tr + [] == tr;
    } else {
      var a, b := Waddr(inst, 0), Waddr(inst, 1);
      WriteFollows(st, tr, a);
      WriteFollows(PortWrite(st, a), tr + WriteEffects(a), b);
      var s, mid := PortWrite(PortWrite(st, a), b), tr + WriteEffects(a) + WriteEffects(b);
      if ReadsUniform(inst) {
        ReadFollows(s, mid);
        assert mid + [Read] == tr + (WriteEffects(a) + WriteEffects(b) + [Read]);
      } else {
        assert mid == tr + (WriteEffects(a) + WriteEffects(b) + []);
      }
    }
  }

  /**
   * The stream is four bytes for every word the trace takes. The samples are
   * the first 32 submissions, each with the offsets of its first four writes in
   * order; the slots of UNIFORMS_ADDRESS are the words the first 16 resets come
   * before.
   */
  lemma {:induction false} ScanFollows(code: seq<u64>)
    requires ShaderFits(code)
    ensures Follows(Scan(code), Trace(code))
  {
    hide ScanInst, InstEffects, Follows;
    if code == [] {
      StartFollows();
    } else {
      ScanFollows(code[..|code| - 1]);
      InstFollows(Scan(code[..|code| - 1]), Trace(code[..|code| - 1]), code[|code| - 1]);
    }
  }

  lemma StartFollows()
    ensures Follows(SCAN_START, [])
  {
  }

  // ---- What the offsets are ----

  /** The pending writes are exactly those to the unit with no submission to it behind them, in order. */
  lemma {:induction false} PendingExactly(tr: seq<Effect>, unit: nat, q: nat)
    ensures q in Pending(tr, unit)
       <==> && q < |tr| && tr[q] == Texture(unit, false)
            && forall r :: q < r < |tr| ==> tr[r] != Texture(unit, true)
    ensures forall a, b :: 0 <= a < b < |Pending(tr, unit)| ==> Pending(tr, unit)[a] < Pending(tr, unit)[b]
  {
    if tr != [] {
      var front, last := tr[..|tr| - 1], tr[|tr| - 1];
      PendingExactly(front, unit, q);
    }
  }

  lemma {:induction false} WordsRise(tr: seq<Effect>, q: nat, r: nat)
    requires q <= r <= |tr|
    ensures Words(tr[..q]) <= Words(tr[..r])
    ensures q < r && Pops(tr, q) ==> Words(tr[..q]) < Words(tr[..r])
    decreases r
  {
    if q < r {
      WordsRise(tr, q, r - 1);
      assert tr[..r][..r - 1] == tr[..r - 1];
      if q == r - 1 {
        assert tr[..r][..q] == tr[..q];
      }
    }
  }

  /** Every write of a submission with parameters takes a word. */
  lemma WritesPop(tr: seq<Effect>, p: nat, a: nat)
    requires p < |tr| && tr[p].Texture? && tr[p].submit && a < |WritesOf(tr, p)| && |WritesOf(tr, p)| > 1
    ensures var q := WritesOf(tr, p)[a]; q <= p && tr[q].Texture? && tr[q].unit == tr[p].unit && Pops(tr, q)
    ensures WritesOf(tr, p)[a] == p || !tr[WritesOf(tr, p)[a]].submit
    ensures forall b :: a < b < |WritesOf(tr, p)| ==> WritesOf(tr, p)[a] < WritesOf(tr, p)[b]
  {
    var ps, q := WritesOf(tr, p), WritesOf(tr, p)[a];
    PendingExactly(tr[..p], tr[p].unit, q);
    if a < |ps| - 1 {
      assert q in Pending(tr[..p], tr[p].unit);
    }
  }

  lemma {:induction false} SubmitsRise(tr: seq<Effect>, i: nat, j: nat)
    requires i < j < |Submits(tr)|
    ensures Submits(tr)[i] < Submits(tr)[j]
  {
    var front := tr[..|tr| - 1];
    if j < |Submits(front)| {
      SubmitsRise(front, i, j);
    }
  }

  /** No write belongs to two submissions. */
  lemma WritesApart(tr: seq<Effect>, p: nat, a: nat, p': nat, b: nat)
    requires p < p' < |tr| && tr[p].Texture? && tr[p].submit && tr[p'].Texture? && tr[p'].submit
    requires a < |WritesOf(tr, p)| && |WritesOf(tr, p)| > 1 && b < |WritesOf(tr, p')| && |WritesOf(tr, p')| > 1
    ensures WritesOf(tr, p)[a] != WritesOf(tr, p')[b]
  {
    var q := WritesOf(tr, p)[a];
    WritesPop(tr, p, a);
    WritesPop(tr, p', b);
    PendingExactly(tr[..p'], tr[p'].unit, q);
  }

  /** Every sample has one to four offsets, inside the stream and on words; with parameters they rise. */
  lemma SampleOffsets(code: seq<u64>, i: nat, a: nat)
    requires ShaderFits(code) && i < |Scan(code).samples| && a < |Scan(code).samples[i].offsets|
    ensures var s := Scan(code).samples[i];
            && 1 <= |s.offsets| <= 4 && (s.isDirect ==> |s.offsets| == 1)
            && s.offsets[a] % 4 == 0 && s.offsets[a] <= Scan(code).size
            && (!s.isDirect ==> s.offsets[a] < Scan(code).size)
            && (forall b :: a < b < |s.offsets| ==> s.offsets[a] < s.offsets[b])
  {
    hide Scan, Trace, Pending, Words, Pops;
    ScanFollows(code);
    var tr, s := Trace(code), Scan(code).samples[i];
    var p := Submits(tr)[i];
    var ps := WritesOf(tr, p);
    assert SampleIs(tr, p, s);
    assert tr[..|tr|] == tr;
    WordsRise(tr, ps[a], |tr|);
    if !s.isDirect {
      WritesPop(tr, p, a);
      forall b | a < b < |s.offsets|
        ensures s.offsets[a] < s.offsets[b]
      {
        WordsRise(tr, ps[a], ps[b]);
      }
    }
  }

  /** Offsets recorded by samples with parameters are distinct words of the stream. */
  lemma SampleOffsetsDistinct(code: seq<u64>, i: nat, a: nat, j: nat, b: nat)
    requires ShaderFits(code)
    requires var ss := Scan(code).samples;
             && i < j < |ss| && !ss[i].isDirect && a < |ss[i].offsets| && !ss[j].isDirect && b < |ss[j].offsets|
    ensures Scan(code).samples[i].offsets[a] != Scan(code).samples[j].offsets[b]
  {
    hide Scan, Trace, Pending, Words, Pops;
    ScanFollows(code);
    var tr, s, s' := Trace(code), Scan(code).samples[i], Scan(code).samples[j];
    SubmitsRise(tr, i, j);
    var p, p' := Submits(tr)[i], Submits(tr)[j];
    assert SampleIs(tr, p, s) && SampleIs(tr, p', s');
    var q, q' := WritesOf(tr, p)[a], WritesOf(tr, p')[b];
    WritesApart(tr, p, a, p', b);
    WritesPop(tr, p, a);
    WritesPop(tr, p', b);
    if q < q' {
      WordsRise(tr, q, q');
    } else {
      WordsRise(tr, q', q);
    }
  }
}
