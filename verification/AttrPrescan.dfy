/** do_submit_cl's walk over the shader records that sizes the vertex copies. */
module AttrPrescan {
  import opened Bytes
  import opened BinList
  import opened VertexSwap
  import opened ShaderRecs
  import opened RecordSizing

  lemma {:induction false} AttrsRefused(env: RelocEnv, k: nat, acc: nat, n: nat)
    requires ValidReloc(env) && k < |env.lows| && RecordInSource(env, k) && n <= AttrCount(env.lows[k])
    requires acc % 16 == 0 && ScanAttrs(env, k, acc, n).None?
    ensures ScanAttrs(env, k, acc, AttrCount(env.lows[k])).None?
    decreases AttrCount(env.lows[k]) - n
  {
    hide ScanAttr;
    if n < AttrCount(env.lows[k]) {
      AttrsRefused(env, k, acc, n + 1);
    }
  }

  lemma {:induction false} RecordsRefused(env: RelocEnv, n: nat)
    requires ValidReloc(env) && n <= |env.lows| && ScanRecords(env, n).None?
    ensures ScanRecords(env, |env.lows|).None?
    decreases |env.lows| - n
  {
    hide ScanAttrs;
    if n < |env.lows| {
      RecordsRefused(env, n + 1);
    }
  }

  /** One attribute: refused where the byte count or the total would leave 32 bits. */
  method SizeAttr(env: RelocEnv, k: nat, acc: u32, i: nat, pkt: seq<byte>) returns (r: Option<u32>)
    requires ValidReloc(env) && k < |env.lows| && RecordInSource(env, k) && i < AttrCount(env.lows[k])
    requires acc % 16 == 0 && pkt == PacketBytes(env, k)
    ensures r.Some? == ScanAttr(env, k, acc, i).Some?
    ensures r.Some? ==> r.value == ScanAttr(env, k, acc, i).value && r.value % 16 == 0
  {
    hide PacketBytes, AttrBytes, RoundUp, RecordInSource;
    var o := 36 + i * 8;
    var attrSize: nat, stride: nat := (pkt[o + 4] as int) + 1, pkt[o + 5];
    if stride == 0 {
      stride := attrSize;
    }
    var vertices := VertexCount(env, k);
    if vertices > U32_MAX / stride {
      return None;
    }
    var bytes: nat := vertices * stride;
    LeadIs(stride, vertices);
    if bytes > U32_MAX - acc - 15 {
      return None;
    }
    r := Some(acc + RoundUp(bytes, 16));
  }

  method SizeRecord(env: RelocEnv, k: nat, acc: u32) returns (r: Option<u32>)
    requires ValidReloc(env) && k < |env.lows| && RecordInSource(env, k) && acc % 16 == 0
    ensures r.Some? == ScanAttrs(env, k, acc, AttrCount(env.lows[k])).Some?
    ensures r.Some? ==> r.value == ScanAttrs(env, k, acc, AttrCount(env.lows[k])).value && r.value % 16 == 0
  {
    hide PacketBytes, ScanAttr, RecordInSource, AttrCount;
    var pkt, i := PacketBytes(env, k), 0;
    r := Some(acc);
    while i < AttrCount(env.lows[k])
      invariant 0 <= i <= AttrCount(env.lows[k]) && r.Some? && r.value % 16 == 0
      invariant ScanAttrs(env, k, acc, i).Some? && ScanAttrs(env, k, acc, i).value == r.value
    {
      r := SizeAttr(env, k, r.value, i, pkt);
      if r.None? {
        AttrsRefused(env, k, acc, i + 1);
        return;
      }
      i := i + 1;
    }
  }

  /** The bytes of vertex scratch a submission is given, or a refusal. */
  method SizeRecords(env: RelocEnv) returns (r: Option<u32>)
    requires ValidReloc(env)
    ensures r.Some? == ScanRecords(env, |env.lows|).Some?
    ensures r.Some? ==> r.value == ScanRecords(env, |env.lows|).value
  {
    hide ScanAttrs, RecordSize, AttrCount;
    var srcOff, rec := 0, 0;
    r := Some(0);
    while rec < |env.lows|
      invariant 0 <= rec <= |env.lows| && srcOff == SourceOffset(env.lows, rec)
      invariant r.Some? && r.value % 16 == 0
      invariant ScanRecords(env, rec).Some? && ScanRecords(env, rec).value == r.value
    {
      var size := RelocCount(env.lows[rec]) * 4 + RecordSize(env.lows[rec]);
      if srcOff + size > |env.rec| {
        RecordsRefused(env, rec + 1);
        return None;
      }
      r := SizeRecord(env, rec, r.value);
      if r.None? {
        RecordsRefused(env, rec + 1);
        return;
      }
      srcOff, rec := srcOff + size, rec + 1;
    }
  }
}
