/** The passes that size buffers before a binner list is rewritten, and what the rewrite uses of them. */
module BinSizing {
  import opened Bytes
  import opened Packets
  import opened Buffers
  import opened BinList
  import opened BinMeaning

  // ---- Lengths ----

  /** Output plus nine bytes for every GEM_HANDLES is the input, so the output never outgrows its buffer. */
  lemma {:induction false} OutputLength(env: BinEnv, st: BinState, s: seq<byte>)
    requires ValidEnv(env) && ValidState(env, st) && Compile(env, st, s).Some?
    ensures Walk(true, s).Some?
    ensures |EncodeAll(Compile(env, st, s).value.out)| + 9 * GemCount(Walk(true, s).value)
         == |EncodeAll(st.out)| + |s|
    ensures |Compile(env, st, s).value.out| + GemCount(Walk(true, s).value) == |st.out| + |Walk(true, s).value|
    decreases |s|
  {
    if s != [] {
      var size := PacketSize(s[0]);
      var p := Decode(true, s[..size]);
      var st' := Step(env, st, p).value;
      OutputLength(env, st', s[size..]);
      StepLength(env, st, p);
      hide EncodeAll, Step;
      var ps := Walk(true, s).value;
      assert ps[0] == p && ps[1..] == Walk(true, s[size..]).value;
    }
  }

  lemma StepLength(env: BinEnv, st: BinState, p: Packet)
    requires ValidEnv(env) && ValidState(env, st) && Sized(p) && Step(env, st, p).Some?
    ensures var out := Step(env, st, p).value.out;
            if p.GemHandles? then out == st.out
            else |out| == |st.out| + 1 && |EncodeAll(out)| == |EncodeAll(st.out)| + SizeOf(p)
  {
    var out := Step(env, st, p).value.out;
    if !p.GemHandles? {
      assert out[..|out| - 1] == st.out && SizeOf(out[|out| - 1]) == SizeOf(p);
    }
  }

  /** Five bytes of list per shader state: the flag half of the scratch array never reaches the other half. */
  lemma {:induction false} ShaderStatesBounded(env: BinEnv, st: BinState, s: seq<byte>)
    requires ValidEnv(env) && ValidState(env, st) && Compile(env, st, s).Some?
    ensures 5 * (|Compile(env, st, s).value.lows| - |st.lows|) <= |s|
    decreases |s|
  {
    if s != [] {
      var size := PacketSize(s[0]);
      var p := Decode(true, s[..size]);
      var st' := Step(env, st, p).value;
      ShaderStatesBounded(env, st', s[size..]);
      assert |st'.lows| - |st.lows| == (if p.ShaderState? then 1 else 0);
    }
  }

  // ---- Which lists are accepted ----

  /** Every 16-bit draw reads a range that lies in a live buffer. */
  predicate RangesInBuffers(env: BinEnv, ctx: Context, ps: seq<Packet>)
    requires ValidEnv(env)
    decreases |ps|
  {
    ps == [] ||
    (&& (ps[0].Indexed? && IsU16(ps[0].mode) ==>
           && ps[0].count <= 0x7FFF_FFFF
           && Resolve(env.handles, ctx.hindex0).Some?
           && ps[0].offset + 2 * ps[0].count <= |Resolve(env.handles, ctx.hindex0).value.mem|)
     && RangesInBuffers(env, After(env, ctx, ps[0]), ps[1..]))
  }

  /** With the prescan's scratch and a slot per five bytes, only malformed lists and bad ranges are refused. */
  lemma {:induction false} AcceptedExactly(env: BinEnv, st: BinState, s: seq<byte>)
    requires ValidEnv(env) && ValidState(env, st)
    requires |s| < 5 * (env.slotsMax - |st.lows|)
    requires Walk(true, s).Some? ==> st.used + IndexNeed(Walk(true, s).value) <= env.scratchSize
    ensures Compile(env, st, s).Some?
       <==> Walk(true, s).Some? && RangesInBuffers(env, ContextOf(st), Walk(true, s).value)
    decreases |s|
  {
    if s != [] && 0 < PacketSize(s[0]) <= |s| {
      var size := PacketSize(s[0]);
      var p, rest := Decode(true, s[..size]), s[size..];
      if Walk(true, rest).Some? {
        var ps := Walk(true, s).value;
        assert ps[0] == p && ps[1..] == Walk(true, rest).value;
      }
      if Step(env, st, p).Some? {
        StepGrows(env, st, p);
        AcceptedExactly(env, Step(env, st, p).value, rest);
      }
    }
  }

  /** So a list is refused exactly when it is malformed, a range is bad, or nothing but GEM_HANDLES is in it. */
  lemma ListAcceptedExactly(env: BinEnv, st: BinState, s: seq<byte>)
    requires ValidEnv(env) && ValidState(env, st) && st.out == [] && s != []
    requires |s| < 5 * (env.slotsMax - |st.lows|)
    requires Walk(true, s).Some? ==> st.used + IndexNeed(Walk(true, s).value) <= env.scratchSize
    ensures ProcessedList(env, st, s).Some?
       <==> && Walk(true, s).Some? && RangesInBuffers(env, ContextOf(st), Walk(true, s).value)
            && GemCount(Walk(true, s).value) < |Walk(true, s).value|
  {
    hide Compile, Walk, RangesInBuffers, EncodeAll;
    AcceptedExactly(env, st, s);
    if Compile(env, st, s).Some? {
      OutputLength(env, st, s);
    }
  }

  // ---- The prescan ----

  datatype Scan = Scan(indexSize: nat, tilesX: u32, tilesY: u32)

  /** The guard that keeps the running total inside 32 bits. */
  predicate IndexTotalFits(size: nat, count: u32) {
    size + 3 <= U32_MAX && count <= (U32_MAX - size - 3) / 2
  }

  lemma TotalStaysAligned(size: u32, count: u32)
    requires size % 4 == 0 && IndexTotalFits(size, count)
    ensures size + RoundUp(2 * count, 4) <= U32_MAX && (size + RoundUp(2 * count, 4)) % 4 == 0
  {
  }

  function ScanPacket(acc: Scan, p: Packet): Option<Scan> {
    match p
    case BinConfig(_, _, _, x, y, _) =>
      Some(acc.(tilesX := Max(acc.tilesX, x), tilesY := Max(acc.tilesY, y)))
    case Indexed(mode, count, _, _) =>
      if !IsU16(mode) then Some(acc)
      else if IndexTotalFits(acc.indexSize, count) then
        Some(acc.(indexSize := acc.indexSize + RoundUp(2 * count, 4)))
      else None
    case _ => Some(acc)
  }

  /** None: the submission is refused. A malformed tail ends the scan; the rewrite refuses it later. */
  function Prescan(acc: Scan, s: seq<byte>): Option<Scan>
    decreases |s|
  {
    if s == [] then Some(acc)
    else
      var size := PacketSize(s[0]);
      if size == 0 || size > |s| then Some(acc)
      else
        match ScanPacket(acc, Decode(true, s[..size]))
        case None => None
        case Some(acc') => Prescan(acc', s[size..])
  }

  lemma PrescanAt(acc: Scan, s: seq<byte>, off: nat)
    requires off <= |s|
    ensures Prescan(acc, s[off..]) ==
      if !PacketFits(s, off) then Some(acc)
      else match ScanPacket(acc, PacketAt(s, off))
           case None => None
           case Some(acc') => Prescan(acc', s[off + PacketSize(s[off])..])
  {
    if off < |s| {
      TailPacket(s, off);
    }
  }

  lemma {:induction false} PrescanIsNeed(acc: Scan, s: seq<byte>)
    requires Prescan(acc, s).Some? && Walk(true, s).Some?
    ensures Prescan(acc, s).value.indexSize == acc.indexSize + IndexNeed(Walk(true, s).value)
    decreases |s|
  {
    if s != [] {
      var size := PacketSize(s[0]);
      var p := Decode(true, s[..size]);
      PrescanIsNeed(ScanPacket(acc, p).value, s[size..]);
      var ps := Walk(true, s).value;
      assert ps[0] == p && ps[1..] == Walk(true, s[size..]).value;
    }
  }

  lemma {:induction false} IndexUsed(env: BinEnv, st: BinState, s: seq<byte>)
    requires ValidEnv(env) && ValidState(env, st) && Compile(env, st, s).Some?
    ensures Walk(true, s).Some?
    ensures Compile(env, st, s).value.used == st.used + IndexNeed(Walk(true, s).value)
    decreases |s|
  {
    if s != [] {
      var size := PacketSize(s[0]);
      var p := Decode(true, s[..size]);
      StepGrows(env, st, p);
      IndexUsed(env, Step(env, st, p).value, s[size..]);
      var ps := Walk(true, s).value;
      assert ps[0] == p && ps[1..] == Walk(true, s[size..]).value;
    }
  }

  /** The scratch an accepted list uses is the size the prescan found, to the byte. */
  lemma IndexScratchPredicted(env: BinEnv, st: BinState, s: seq<byte>, acc: Scan)
    requires ValidEnv(env) && ValidState(env, st) && Compile(env, st, s).Some?
    requires Prescan(acc, s).Some? && st.used == acc.indexSize
    ensures Compile(env, st, s).value.used == Prescan(acc, s).value.indexSize
  {
    IndexUsed(env, st, s);
    PrescanIsNeed(acc, s);
  }

  /** The tile counts the packet leaves behind never exceed the ones the tile buffer was sized for. */
  lemma {:induction false} TilesWithinScan(env: BinEnv, st: BinState, s: seq<byte>, acc: Scan)
    requires ValidEnv(env) && ValidState(env, st) && Compile(env, st, s).Some?
    requires Prescan(acc, s).Some? && st.tilesX <= acc.tilesX && st.tilesY <= acc.tilesY
    ensures Compile(env, st, s).value.tilesX <= Prescan(acc, s).value.tilesX
    ensures Compile(env, st, s).value.tilesY <= Prescan(acc, s).value.tilesY
    ensures acc.tilesX <= Prescan(acc, s).value.tilesX && acc.tilesY <= Prescan(acc, s).value.tilesY
    decreases |s|
  {
    if s != [] {
      var size := PacketSize(s[0]);
      var p := Decode(true, s[..size]);
      var st' := Step(env, st, p).value;
      assert st'.tilesX <= ScanPacket(acc, p).value.tilesX && st'.tilesY <= ScanPacket(acc, p).value.tilesY;
      TilesWithinScan(env, st', s[size..], ScanPacket(acc, p).value);
    }
  }

  /** The tile counts of the last configuration of a list, the given ones if there is none. */
  function LastTiles(ps: seq<Packet>, x: u32, y: u32): (u32, u32) {
    if ps == [] then (x, y)
    else if ps[0].BinConfig? then LastTiles(ps[1..], ps[0].tilesX, ps[0].tilesY)
    else LastTiles(ps[1..], x, y)
  }

  lemma {:induction false} LastTilesAre(ps: seq<Packet>, x: u32, y: u32)
    ensures (forall p <- ps :: !p.BinConfig?) ==> LastTiles(ps, x, y) == (x, y)
    ensures forall c :: 0 <= c < |ps| && ps[c].BinConfig? && (forall k :: c < k < |ps| ==> !ps[k].BinConfig?) ==>
              LastTiles(ps, x, y) == (ps[c].tilesX, ps[c].tilesY)
  {
    if ps != [] {
      var rest := ps[1..];
      LastTilesAre(rest, if ps[0].BinConfig? then ps[0].tilesX else x, if ps[0].BinConfig? then ps[0].tilesY else y);
      forall c | 0 <= c < |ps| && ps[c].BinConfig? && (forall k :: c < k < |ps| ==> !ps[k].BinConfig?)
        ensures LastTiles(ps, x, y) == (ps[c].tilesX, ps[c].tilesY)
      {
        assert forall k :: 0 <= k < |rest| ==> rest[k] == ps[k + 1];
        if c > 0 {
          assert rest[c - 1].BinConfig? && forall k :: c - 1 < k < |rest| ==> !rest[k].BinConfig?;
        } else {
          assert forall p <- rest :: !p.BinConfig?;
        }
      }
    }
  }

  /** The render list is built with those. */
  lemma {:induction false} TilesOfLast(env: BinEnv, st: BinState, s: seq<byte>)
    requires ValidEnv(env) && ValidState(env, st) && Compile(env, st, s).Some?
    ensures Walk(true, s).Some?
    ensures var fin := Compile(env, st, s).value;
            (fin.tilesX, fin.tilesY) == LastTiles(Walk(true, s).value, st.tilesX, st.tilesY)
    decreases |s|
  {
    if s != [] {
      var size := PacketSize(s[0]);
      var p := Decode(true, s[..size]);
      var st' := Step(env, st, p).value;
      TilesOfLast(env, st', s[size..]);
      StepTiles(env, st, p);
      var ps, rest := Walk(true, s).value, Walk(true, s[size..]).value;
      assert ps[0] == p && ps[1..] == rest;
    }
  }

  lemma StepTiles(env: BinEnv, st: BinState, p: Packet)
    requires ValidEnv(env) && ValidState(env, st) && Sized(p) && Step(env, st, p).Some?
    ensures var st' := Step(env, st, p).value;
            if p.BinConfig? then st'.tilesX == p.tilesX && st'.tilesY == p.tilesY
            else st'.tilesX == st.tilesX && st'.tilesY == st.tilesY
  {
  }

  /** The tile buffer is sized for the largest counts of any configuration and the given ones. */
  lemma {:induction false} ScanTilesExactly(acc: Scan, s: seq<byte>)
    requires Prescan(acc, s).Some? && Walk(true, s).Some?
    ensures var ps, r := Walk(true, s).value, Prescan(acc, s).value;
            && acc.tilesX <= r.tilesX && acc.tilesY <= r.tilesY
            && (forall p <- ps :: p.BinConfig? ==> p.tilesX <= r.tilesX && p.tilesY <= r.tilesY)
            && (r.tilesX == acc.tilesX || exists p <- ps :: p.BinConfig? && p.tilesX == r.tilesX)
            && (r.tilesY == acc.tilesY || exists p <- ps :: p.BinConfig? && p.tilesY == r.tilesY)
    decreases |s|
  {
    if s != [] {
      var size := PacketSize(s[0]);
      var p := Decode(true, s[..size]);
      ScanTilesExactly(ScanPacket(acc, p).value, s[size..]);
      var ps, rest := Walk(true, s).value, Walk(true, s[size..]).value;
      assert ps == [p] + rest;
    }
  }

  // ---- Scratch ranges of different draws ----

  /** The byte ranges the 16-bit draws of a list get, in order. */
  function DrawRanges(used: nat, ps: seq<Packet>): seq<(nat, nat)>
    decreases |ps|
  {
    if ps == [] then []
    else
      (if ps[0].Indexed? && IsU16(ps[0].mode) then [(used, used + 2 * ps[0].count)] else [])
      + DrawRanges(used + IndexBytes(ps[0]), ps[1..])
  }

  predicate Ordered(rs: seq<(nat, nat)>, lo: nat, hi: nat) {
    if rs == [] then lo <= hi else lo <= rs[0].0 <= rs[0].1 && Ordered(rs[1..], rs[0].1, hi)
  }

  lemma {:induction false} OrderedBounds(rs: seq<(nat, nat)>, lo: nat, hi: nat)
    requires Ordered(rs, lo, hi)
    ensures forall i :: 0 <= i < |rs| ==> lo <= rs[i].0 <= rs[i].1 <= hi
    ensures forall i, j :: 0 <= i < j < |rs| ==> rs[i].1 <= rs[j].0
    ensures lo <= hi
  {
    if rs != [] {
      OrderedBounds(rs[1..], rs[0].1, hi);
      assert forall i :: 1 <= i < |rs| ==> rs[i] == rs[1..][i - 1];
    }
  }

  lemma {:induction false} DrawRangesOrdered(used: nat, ps: seq<Packet>)
    ensures Ordered(DrawRanges(used, ps), used, used + IndexNeed(ps))
    decreases |ps|
  {
    if ps != [] {
      var next := used + IndexBytes(ps[0]);
      var rest := DrawRanges(next, ps[1..]);
      DrawRangesOrdered(next, ps[1..]);
      if ps[0].Indexed? && IsU16(ps[0].mode) {
        var rs := [(used, used + 2 * ps[0].count)] + rest;
        assert DrawRanges(used, ps) == rs && rs[1..] == rest;
      } else {
        assert DrawRanges(used, ps) == [] + rest == rest;
      }
    }
  }

  /** Different draws read different scratch bytes, all inside the predicted size. */
  lemma DrawRangesDisjoint(ps: seq<Packet>)
    ensures var rs := DrawRanges(0, ps);
            && (forall i :: 0 <= i < |rs| ==> rs[i].0 <= rs[i].1 <= IndexNeed(ps))
            && (forall i, j :: 0 <= i < j < |rs| ==> rs[i].1 <= rs[j].0)
  {
    DrawRangesOrdered(0, ps);
    OrderedBounds(DrawRanges(0, ps), 0, IndexNeed(ps));
  }

  /** The body of the prescan: what one well-formed packet adds. */
  method ScanOne(src: seq<byte>, off: nat, acc: Scan) returns (r: Option<Scan>)
    requires PacketFits(src, off)
    requires acc.indexSize % 4 == 0 && acc.indexSize <= U32_MAX
    ensures r == ScanPacket(acc, PacketAt(src, off))
    ensures r.Some? ==> r.value.indexSize % 4 == 0 && r.value.indexSize <= U32_MAX
  {
    r := Some(acc);
    if src[off] == TILE_BINNING_MODE_CONFIG {
      if src[off + 13] > acc.tilesX {
        r := Some(r.value.(tilesX := src[off + 13]));
      }
      if src[off + 14] > acc.tilesY {
        r := Some(r.value.(tilesY := src[off + 14]));
      }
    } else if src[off] == GL_INDEXED_PRIMITIVE && IsU16(src[off + 1]) {
      var count := ReadBe(src, off + 2);
      if count > (U32_MAX - acc.indexSize - 3) / 2 {
        return None;
      }
      TotalStaysAligned(acc.indexSize, count);
      r := Some(acc.(indexSize := acc.indexSize + RoundUp(2 * count, 4)));
    }
  }

  /** do_submit_cl's first walk over the list. */
  method PrescanList(src: seq<byte>, tilesX0: u32, tilesY0: u32) returns (r: Option<Scan>)
    ensures r == Prescan(Scan(0, tilesX0, tilesY0), src)
  {
    hide Prescan, ScanPacket, PacketAt;
    var acc := Scan(0, tilesX0, tilesY0);
    var off := 0;
    assert src[0..] == src;
    while off < |src|
      invariant 0 <= off <= |src| && acc.indexSize % 4 == 0 && acc.indexSize <= U32_MAX
      invariant Prescan(acc, src[off..]) == Prescan(Scan(0, tilesX0, tilesY0), src)
    {
      var size := PacketSize(src[off]);
      PrescanAt(acc, src, off);
      if size == 0 || off + size > |src| {
        return Some(acc);
      }
      var one := ScanOne(src, off, acc);
      if one.None? {
        return None;
      }
      acc, off := one.value, off + size;
    }
    PrescanAt(acc, src, off);
    return Some(acc);
  }
}
