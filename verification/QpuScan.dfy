/**
 * scan_shader_qpu: which words of a shader's uniform stream the hardware pops,
 * and which of them the driver must patch.
 */
module QpuScan {
  import opened Bytes
  import opened Buffers

  type u64 = x: int | 0 <= x < 0x1_0000_0000_0000_0000

  const MAX_TEX_SAMPLES: nat := 32
  const MAX_UNIFORM_ADDR: nat := 16

  // ---- Instruction fields ----

  const SIG_SMALL_IMM := 13
  const SIG_LOAD_IMM := 14
  const SIG_BRANCH := 15
  const R_UNIF := 32
  const W_UNIFORMS_ADDRESS := 40
  const W_TMU0_S := 56
  const W_TMU0_B := 59
  const W_TMU1_S := 60
  const W_TMU1_B := 63

  function Signal(inst: u64): nat {
    inst / 0x1000_0000_0000_0000 % 16
  }

  function RaddrA(inst: u64): nat {
    inst / 0x4_0000 % 64
  }

  function RaddrB(inst: u64): nat {
    inst / 0x1000 % 64
  }

  /** Port 0 is the add ALU, port 1 the mul ALU. */
  function Waddr(inst: u64, port: nat): nat {
    if port == 0 then inst / 0x40_0000_0000 % 64 else inst / 0x1_0000_0000 % 64
  }

  predicate IsTmuWrite(waddr: nat) {
    W_TMU0_S <= waddr <= W_TMU1_B
  }

  predicate IsTmuSubmit(waddr: nat) {
    waddr == W_TMU0_S || waddr == W_TMU1_S
  }

  function TmuOf(waddr: nat): (t: nat)
    ensures t < 2
  {
    if waddr > W_TMU0_B then 1 else 0
  }

  /** Both read ports deliver the same word, so an instruction reads at most one. */
  predicate ReadsUniform(inst: u64) {
    && Signal(inst) != SIG_LOAD_IMM
    && (RaddrA(inst) == R_UNIF || (RaddrB(inst) == R_UNIF && Signal(inst) != SIG_SMALL_IMM))
  }

  // ---- The scanner's state ----

  /** Parameter writes since the last submission: how many, and the offsets of the first four. */
  datatype Tmu = Tmu(offsets: seq<u32>, writes: nat)

  const IDLE := Tmu([], 0)

  datatype ScanState = ScanState(size: u32, samples: seq<Sample>, uniformAddrs: seq<u32>, tmu: seq<Tmu>)

  const SCAN_START := ScanState(0, [], [], [IDLE, IDLE])

  /** One ALU port's write; size must leave room for the words still to come. */
  function PortWrite(st: ScanState, waddr: nat): (r: ScanState)
    requires |st.tmu| == 2 && st.size + 4 <= U32_MAX
    ensures |r.tmu| == 2 && st.size <= r.size <= st.size + 4
  {
    if waddr == W_UNIFORMS_ADDRESS then
      if |st.uniformAddrs| < MAX_UNIFORM_ADDR then st.(uniformAddrs := st.uniformAddrs + [st.size / 4]) else st
    else if !IsTmuWrite(waddr) then st
    else
      var k := TmuOf(waddr);
      var t := st.tmu[k];
      var direct := IsTmuSubmit(waddr) && t.writes == 0;
      var offsets := if t.writes < 4 then t.offsets + [st.size] else t.offsets;
      var size := if direct then st.size else st.size + 4;
      if IsTmuSubmit(waddr) then
        st.(size := size, tmu := st.tmu[k := IDLE],
            samples := if |st.samples| < MAX_TEX_SAMPLES then st.samples + [Sample(direct, offsets)] else st.samples)
      else st.(size := size, tmu := st.tmu[k := Tmu(offsets, t.writes + 1)])
  }

  function ScanInst(st: ScanState, inst: u64): (r: ScanState)
    requires |st.tmu| == 2 && st.size + 12 <= U32_MAX
    ensures |r.tmu| == 2 && st.size <= r.size <= st.size + 12
  {
    if Signal(inst) == SIG_BRANCH then st
    else
      var s := PortWrite(PortWrite(st, Waddr(inst, 0)), Waddr(inst, 1));
      if ReadsUniform(inst) then s.(size := s.size + 4) else s
  }

  /** A shader fits the gigabyte the V3D can address, so its stream length fits 32 bits. */
  predicate ShaderFits(code: seq<u64>) {
    12 * |code| <= U32_MAX
  }

  function Scan(code: seq<u64>): (r: ScanState)
    requires ShaderFits(code)
    ensures |r.tmu| == 2 && r.size <= 12 * |code|
  {
    if code == [] then SCAN_START
    else ScanInst(Scan(code[..|code| - 1]), code[|code| - 1])
  }

  /** The body of the port loop. */
  method ScanPort(waddr: nat, tmu: array<Tmu>, size0: u32, samples0: seq<Sample>, uniformAddrs0: seq<u32>)
    returns (size: u32, samples: seq<Sample>, uniformAddrs: seq<u32>)
    requires tmu.Length == 2 && size0 + 4 <= U32_MAX
    requires |samples0| <= MAX_TEX_SAMPLES && |uniformAddrs0| <= MAX_UNIFORM_ADDR
    modifies tmu
    ensures ScanState(size, samples, uniformAddrs, tmu[..])
         == PortWrite(ScanState(size0, samples0, uniformAddrs0, old(tmu[..])), waddr)
    ensures |samples| <= MAX_TEX_SAMPLES && |uniformAddrs| <= MAX_UNIFORM_ADDR
  {
    size, samples, uniformAddrs := size0, samples0, uniformAddrs0;
    if waddr == W_UNIFORMS_ADDRESS {
      if |uniformAddrs| < MAX_UNIFORM_ADDR {
        uniformAddrs := uniformAddrs + [size / 4];
      }
      return;
    }
    if !IsTmuWrite(waddr) {
      return;
    }
    var k, submit := TmuOf(waddr), IsTmuSubmit(waddr);
    var isDirect := submit && tmu[k].writes == 0;
    var offsets := tmu[k].offsets;
    if tmu[k].writes < 4 {
      offsets := offsets + [size];
    }
    tmu[k] := Tmu(offsets, tmu[k].writes + 1);
    if !isDirect {
      size := size + 4;
    }
    if submit {
      if |samples| < MAX_TEX_SAMPLES {
        samples := samples + [Sample(isDirect, offsets)];
      }
      tmu[k] := IDLE;
    }
  }

  /** scan_shader_qpu itself. */
  method ScanShader(code: seq<u64>) returns (size: u32, samples: seq<Sample>, uniformAddrs: seq<u32>)
    requires ShaderFits(code)
    ensures size == Scan(code).size && samples == Scan(code).samples && uniformAddrs == Scan(code).uniformAddrs
    ensures |samples| <= MAX_TEX_SAMPLES && |uniformAddrs| <= MAX_UNIFORM_ADDR
  {
    hide Signal, Waddr, ReadsUniform, PortWrite;
    size, samples, uniformAddrs := 0, [], [];
    var tmu := new Tmu[2](i => IDLE);
    assert tmu[..] == SCAN_START.tmu;
    var i := 0;
    while i < |code|
      invariant 0 <= i <= |code|
      invariant ScanState(size, samples, uniformAddrs, tmu[..]) == Scan(code[..i])
      invariant |samples| <= MAX_TEX_SAMPLES && |uniformAddrs| <= MAX_UNIFORM_ADDR
    {
      var inst := code[i];
      ghost var before := ScanState(size, samples, uniformAddrs, tmu[..]);
      assert code[..i + 1][..i] == code[..i];
      i := i + 1;
      if Signal(inst) == SIG_BRANCH {
        continue;
      }
      var w := 0;
      while w < 2
        invariant 0 <= w <= 2
        invariant ScanState(size, samples, uniformAddrs, tmu[..]) == Ports(before, inst, w)
        invariant |samples| <= MAX_TEX_SAMPLES && |uniformAddrs| <= MAX_UNIFORM_ADDR
      {
        size, samples, uniformAddrs := ScanPort(Waddr(inst, w), tmu, size, samples, uniformAddrs);
        w := w + 1;
      }
      if ReadsUniform(inst) {
        size := size + 4;
      }
    }
    assert code[..i] == code;
  }

  /** The state after the first n ports of an instruction. */
  ghost function Ports(st: ScanState, inst: u64, n: nat): ScanState
    requires |st.tmu| == 2 && st.size + 8 <= U32_MAX && n <= 2
  {
    if n == 0 then st
    else if n == 1 then PortWrite(st, Waddr(inst, 0))
    else PortWrite(PortWrite(st, Waddr(inst, 0)), Waddr(inst, 1))
  }
}
