/** The sizes the record pass is given, against what it uses. */
module RecordSizing {
  import opened Bytes
  import opened Buffers
  import opened BinList
  import opened BinMeaning
  import opened ShaderRecs
  import opened RecordMeaning
  import opened VertexSwap

  // ---- Records ----

  /** A record is written before its source ends: at least four handles pay for the alignment. */
  lemma {:induction false} OutputBehindInput(lows: seq<u32>, k: nat)
    requires k <= |lows|
    ensures RecordOffset(lows, k) <= SourceOffset(lows, k)
    ensures k > 0 ==> RecordOffset(lows, k - 1) + RecordSize(lows[k - 1]) <= RecordOffset(lows, k)
  {
    if k > 0 {
      OutputBehindInput(lows, k - 1);
    }
  }

  /** All records fit in a section as long as the source, one behind the other. */
  lemma RecordsFit(env: RelocEnv, n: nat, k: nat)
    requires ValidReloc(env) && k < n <= |env.lows| && RunRecords(env, n).Some?
    ensures RecordOffset(env.lows, k) + RecordSize(env.lows[k]) <= RecordOffset(env.lows, k + 1) <= |env.rec|
  {
    hide RecordSize, SourceSize, RoundUp, RunRecords;
    RecordSourced(env, n, k);
    OutputBehindInput(env.lows, k + 1);
    assert SourceOffset(env.lows, k + 1) == SourceOffset(env.lows, k) + SourceSize(env.lows[k]);
  }

  lemma {:induction false} RecordSourced(env: RelocEnv, n: nat, k: nat)
    requires ValidReloc(env) && k < n <= |env.lows| && RunRecords(env, n).Some?
    ensures RecordInSource(env, k)
  {
    hide RecordInSource, RunStages, RunAttrs;
    if k < n - 1 {
      RecordSourced(env, n - 1, k);
    }
  }

  // ---- Vertex copies ----

  /** What the prescan adds for one attribute; None where it refuses the submission. */
  function ScanAttr(env: RelocEnv, k: nat, acc: nat, i: nat): (r: Option<nat>)
    requires ValidReloc(env) && k < |env.lows| && RecordInSource(env, k) && i < AttrCount(env.lows[k])
    requires acc % 16 == 0
    ensures r.Some? ==> r.value % 16 == 0 && r.value <= U32_MAX
    ensures r.Some? ==> r.value == acc + AttrBytes(env, k, i)
  {
    var stride := AttrStride(PacketBytes(env, k), i);
    if VertexCount(env, k) > U32_MAX / stride then None
    else
      var bytes := AttrLength(env, k, i);
      if acc + 15 > U32_MAX || bytes > U32_MAX - acc - 15 then None
      else
        SumAligned(acc, RoundUp(bytes, 16));
        Some(acc + RoundUp(bytes, 16))
  }

  function AttrBytes(env: RelocEnv, k: nat, i: nat): nat
    requires k < |env.lows| == |env.maxes| && RecordInSource(env, k) && i < AttrCount(env.lows[k])
  {
    RoundUp(AttrLength(env, k, i), 16)
  }

  function ScanAttrs(env: RelocEnv, k: nat, acc: nat, n: nat): (r: Option<nat>)
    requires ValidReloc(env) && k < |env.lows| && RecordInSource(env, k) && n <= AttrCount(env.lows[k])
    requires acc % 16 == 0
    ensures r.Some? ==> r.value % 16 == 0
  {
    if n == 0 then Some(acc)
    else
      match ScanAttrs(env, k, acc, n - 1)
      case None => None
      case Some(a) => ScanAttr(env, k, a, n - 1)
  }

  /** The attribute scratch the first n records are given. */
  function ScanRecords(env: RelocEnv, n: nat): (r: Option<nat>)
    requires ValidReloc(env) && n <= |env.lows|
    ensures r.Some? ==> r.value % 16 == 0
  {
    if n == 0 then Some(0)
    else
      match ScanRecords(env, n - 1)
      case None => None
      case Some(acc) =>
        if RecordInSource(env, n - 1) then ScanAttrs(env, n - 1, acc, AttrCount(env.lows[n - 1])) else None
  }

  /** Every vertex-buffer handle of the first n records is in the submission's list. */
  ghost predicate HandlesListed(env: RelocEnv, n: nat)
    requires ValidReloc(env) && n <= |env.lows|
  {
    forall k: nat, i: nat :: k < n ==> AttrListed(env, k, i)
  }

  predicate AttrListed(env: RelocEnv, k: nat, i: nat)
    requires k < |env.lows|
  {
    RecordInSource(env, k) && i < AttrCount(env.lows[k]) ==> HandleIndex(env, k, 3 + i) < |env.handles.list|
  }

  lemma ListedAt(env: RelocEnv, k: nat, i: nat)
    requires ValidReloc(env) && k < |env.lows| && RecordInSource(env, k) && i < AttrCount(env.lows[k])
    requires HandlesListed(env, |env.lows|)
    ensures HandleIndex(env, k, 3 + i) < |env.handles.list|
  {
    assert AttrListed(env, k, i);
  }

  lemma AttrWithinScan(env: RelocEnv, k: nat, st: Attrs, i: nat)
    requires ValidReloc(env) && k < |env.lows| && RecordInSource(env, k) && i < AttrCount(env.lows[k])
    requires ValidAttrs(env, k, st) && StepAttr(env, k, st, i).Some?
    ensures var grown := StepAttr(env, k, st, i).value.used - st.used;
            grown == if HandleIndex(env, k, 3 + i) < |env.handles.list| then AttrBytes(env, k, i) else 0
  {
    hide PacketBytes, AttrRangeOk, AttrLength, AttrCopy, Copied;
    if HandleIndex(env, k, 3 + i) < |env.handles.list| {
      assert st.used + AttrLength(env, k, i) <= env.attrSize by {
        AttrMeaning(env, k, st, i);
      }
      RoundUpWithin(st.used, AttrLength(env, k, i), env.attrSize);
    }
  }

  lemma {:induction false} AttrsWithinScan(env: RelocEnv, k: nat, st: Attrs, acc: nat, n: nat)
    requires ValidReloc(env) && k < |env.lows| && RecordInSource(env, k) && n <= AttrCount(env.lows[k])
    requires ValidAttrs(env, k, st)
    requires acc % 16 == 0 && ScanAttrs(env, k, acc, n).Some? && RunAttrs(env, k, st, n).Some?
    requires st.used <= acc
    ensures RunAttrs(env, k, st, n).value.used <= ScanAttrs(env, k, acc, n).value
    ensures st.used == acc && HandlesListed(env, |env.lows|) ==>
              RunAttrs(env, k, st, n).value.used == ScanAttrs(env, k, acc, n).value
  {
    hide HandlesListed, RecordInSource, HandleIndex, StepAttr, AttrBytes, VertexCount, AttrStride, PacketBytes, RoundUp;
    if n > 0 {
      AttrsWithinScan(env, k, st, acc, n - 1);
      AttrWithinScan(env, k, RunAttrs(env, k, st, n - 1).value, n - 1);
      if HandlesListed(env, |env.lows|) {
        ListedAt(env, k, n - 1);
      }
    }
  }

  /** The copies never need more than the prescan found, and exactly that when every handle is listed. */
  lemma {:induction false} AttrScratchPredicted(env: RelocEnv, n: nat)
    requires ValidReloc(env) && n <= |env.lows|
    requires RunRecords(env, n).Some? && ScanRecords(env, n).Some?
    ensures RunRecords(env, n).value.used <= ScanRecords(env, n).value
    ensures HandlesListed(env, |env.lows|) ==> RunRecords(env, n).value.used == ScanRecords(env, n).value
  {
    hide HandlesListed, RunAttrs, RunStages, ScanAttrs, PacketBytes;
    if n > 0 {
      AttrScratchPredicted(env, n - 1);
      var r := RunRecords(env, n - 1).value;
      var st := RunStages(env, n - 1, FirstStage(env, n - 1, r), 3).value;
      AttrsWithinScan(env, n - 1, Attrs(st.packet, r.attr, r.used), ScanRecords(env, n - 1).value,
          AttrCount(env.lows[n - 1]));
    }
  }

  lemma {:induction false} ScanAttrsGrows(env: RelocEnv, k: nat, acc: nat, i: nat, n: nat)
    requires ValidReloc(env) && k < |env.lows| && RecordInSource(env, k) && i < n <= AttrCount(env.lows[k])
    requires acc % 16 == 0 && ScanAttrs(env, k, acc, n).Some?
    ensures ScanAttrs(env, k, acc, i).Some?
    ensures ScanAttrs(env, k, acc, i).value + AttrBytes(env, k, i) <= ScanAttrs(env, k, acc, n).value
    ensures VertexCount(env, k) <= U32_MAX / AttrStride(PacketBytes(env, k), i)
  {
    hide AttrBytes, PacketBytes;
    if i < n - 1 {
      ScanAttrsGrows(env, k, acc, i, n - 1);
    }
  }

  /** With the prescan's size the scratch never runs short: only a bad handle or range refuses an attribute. */
  lemma AttrScratchSuffices(env: RelocEnv, k: nat, st: Attrs, acc: nat, i: nat)
    requires ValidReloc(env) && k < |env.lows| && RecordInSource(env, k) && i < AttrCount(env.lows[k])
    requires ValidAttrs(env, k, st)
    requires acc % 16 == 0 && ScanAttrs(env, k, acc, AttrCount(env.lows[k])).Some?
    requires ScanAttrs(env, k, acc, AttrCount(env.lows[k])).value <= env.attrSize
    requires ScanAttrs(env, k, acc, i).Some? && st.used <= ScanAttrs(env, k, acc, i).value
    ensures AttrRangeOk(env, k, i, st.used) <==>
      (&& Resolve(env.handles, HandleIndex(env, k, 3 + i)).Some?
       && ReadLe(PacketBytes(env, k), AttrField(i)) + AttrLength(env, k, i)
            <= |Resolve(env.handles, HandleIndex(env, k, 3 + i)).value.mem|)
  {
    hide PacketBytes, VertexCount, AttrStride;
    ScanAttrsGrows(env, k, acc, i, AttrCount(env.lows[k]));
    assert ScanAttrs(env, k, acc, 0) == Some(acc);
  }

  // ---- Ranges of different attributes ----

  /** The state the attribute loop of record k starts from, if that record is reached. */
  function FirstAttrs(env: RelocEnv, k: nat): (a: Option<Attrs>)
    requires ValidReloc(env) && k < |env.lows|
    ensures a.Some? ==> RecordInSource(env, k) && ValidAttrs(env, k, a.value)
  {
    match RunRecords(env, k)
    case None => None
    case Some(r) =>
      if !RecordInSource(env, k) then None
      else
        match RunStages(env, k, FirstStage(env, k, r), 3)
        case None => None
        case Some(st) => Some(Attrs(st.packet, r.attr, r.used))
  }

  /** The state in which it reaches attribute i. */
  function AttrAt(env: RelocEnv, k: nat, i: nat): Option<Attrs>
    requires ValidReloc(env) && k < |env.lows| && i <= AttrCount(env.lows[k])
  {
    var a := FirstAttrs(env, k);
    if a.None? then None else RunAttrs(env, k, a.value, i)
  }

  lemma AttrEnds(env: RelocEnv, k: nat)
    requires ValidReloc(env) && k < |env.lows| && RunRecords(env, k + 1).Some?
    ensures FirstAttrs(env, k).Some? && RunRecords(env, k).Some?
    ensures RunRecords(env, k).value.used == FirstAttrs(env, k).value.used
    ensures AttrAt(env, k, AttrCount(env.lows[k])).Some?
    ensures AttrAt(env, k, AttrCount(env.lows[k])).value.used == RunRecords(env, k + 1).value.used
  {
    hide RunStages, RunAttrs, PacketBytes, ValidAttrs;
  }

  lemma {:induction false} UsedGrows(env: RelocEnv, k: nat, n: nat)
    requires ValidReloc(env) && k <= n <= |env.lows| && RunRecords(env, n).Some?
    ensures RunRecords(env, k).Some? && RunRecords(env, k).value.used <= RunRecords(env, n).value.used
  {
    hide StepRecord, RecordShown;
    if k < n {
      StepRecordMeaning(env, RunRecords(env, n - 1).value);
      UsedGrows(env, k, n - 1);
    }
  }

  /** Within a record what is used only grows, and the copy of attribute i ends before what attribute j is given. */
  lemma AttrBefore(env: RelocEnv, k: nat, i: nat, j: nat, n: nat)
    requires ValidReloc(env) && k < |env.lows| && i <= j <= n <= AttrCount(env.lows[k])
    requires AttrAt(env, k, n).Some?
    ensures RecordInSource(env, k) && AttrAt(env, k, i).Some? && AttrAt(env, k, j).Some?
    ensures AttrAt(env, k, i).value.used <= AttrAt(env, k, j).value.used <= AttrAt(env, k, n).value.used
    ensures i < j && HandleIndex(env, k, 3 + i) < |env.handles.list| ==>
              AttrAt(env, k, i).value.used + AttrLength(env, k, i) <= AttrAt(env, k, j).value.used
  {
    hide FirstAttrs, RunAttrs, PacketBytes, AttrLength, AttrCopy, Copied, AttrRangeOk, ReadLe, Extends, AttrValue;
    var a0 := FirstAttrs(env, k).value;
    AttrsUsed(env, k, a0, j, n);
    AttrsUsed(env, k, a0, i, j);
    if i < j {
      AttrsMeaning(env, k, a0, j, i);
    }
  }

  lemma {:induction false} AttrsUsed(env: RelocEnv, k: nat, st: Attrs, i: nat, n: nat)
    requires ValidReloc(env) && k < |env.lows| && RecordInSource(env, k) && i <= n <= AttrCount(env.lows[k])
    requires ValidAttrs(env, k, st) && RunAttrs(env, k, st, n).Some?
    ensures RunAttrs(env, k, st, i).Some? && RunAttrs(env, k, st, i).value.used <= RunAttrs(env, k, st, n).value.used
  {
    hide StepAttr, AttrShown, RecordInSource;
    if i < n {
      AttrMeaning(env, k, RunAttrs(env, k, st, n - 1).value, n - 1);
      AttrsUsed(env, k, st, i, n - 1);
    }
  }

  /** Copies of different attributes, of one record or of two, never overlap. */
  lemma AttrRangesApart(env: RelocEnv, n: nat, k: nat, i: nat, k': nat, i': nat)
    requires ValidReloc(env) && k <= k' < n <= |env.lows| && RunRecords(env, n).Some?
    requires i < AttrCount(env.lows[k]) && i' < AttrCount(env.lows[k']) && (k < k' || i < i')
    requires RecordInSource(env, k) && HandleIndex(env, k, 3 + i) < |env.handles.list|
    ensures AttrAt(env, k, i).Some? && AttrAt(env, k', i').Some?
    ensures AttrAt(env, k, i).value.used + AttrLength(env, k, i) <= AttrAt(env, k', i').value.used
  {
    hide RunRecords, AttrLength, FirstAttrs, StepAttr;
    var last, last' := AttrCount(env.lows[k]), AttrCount(env.lows[k']);
    UsedGrows(env, k' + 1, n);
    AttrEnds(env, k');
    if k == k' {
      AttrBefore(env, k, i, i', last);
    } else {
      UsedGrows(env, k + 1, k');
      AttrEnds(env, k);
      AttrBefore(env, k, i, last, last);
      AttrBefore(env, k', 0, i', last');
      assert AttrAt(env, k', 0) == FirstAttrs(env, k');
    }
  }
}
