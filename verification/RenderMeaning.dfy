/** What the V3D does with a render list: tiles visited, semaphore waits, end of frame. */
module RenderMeaning {
  import opened Bytes
  import opened RenderList

  /**
   * Executing a list: current tile coordinates, (tile, sublist) of every branch,
   * for every wait the branches already taken, position of every end-of-frame
   * packet, packets executed.
   */
  datatype Sim = Sim(at: Option<(byte, byte)>, visits: seq<((byte, byte), u32)>, waits: seq<nat>,
                     ends: seq<nat>, n: nat)

  const SIM_START := Sim(None, [], [], [], 0)

  /** The end-of-frame bit of load and store packets, or the dedicated store. */
  predicate EndsFrame(op: RclOp) {
    match op
    case StoreMsEof => true
    case StoreGeneral(_, address) => BitSet(address, EOF)
    case LoadGeneral(_, address) => BitSet(address, EOF)
    case StoreFullRes(address) => BitSet(address, EOF)
    case LoadFullRes(address) => BitSet(address, EOF)
    case _ => false
  }

  function Exec(s: Sim, op: RclOp): Sim {
    var t := s.(n := s.n + 1, ends := if EndsFrame(op) then s.ends + [s.n] else s.ends);
    match op
    case TileCoords(x, y) => t.(at := Some((x, y)))
    case WaitSemaphore => t.(waits := t.waits + [|t.visits|])
    case Branch(address) => if s.at.Some? then t.(visits := t.visits + [(s.at.value, address)]) else t
    case _ => t
  }

  function Run(s: Sim, ops: seq<RclOp>): Sim
    decreases |ops|
  {
    if ops == [] then s else Run(Exec(s, ops[0]), ops[1..])
  }

  lemma {:induction false} RunAppend(s: Sim, a: seq<RclOp>, b: seq<RclOp>)
    ensures Run(s, a + b) == Run(Run(s, a), b)
    decreases |a|
  {
    if a == [] {
      assert a + b == b;
    } else {
      RunAppend(Exec(s, a[0]), a[1..], b);
      assert (a + b)[1..] == a[1..] + b;
    }
  }

  // ---- One tile ----

  /** A packet that neither waits nor branches nor leaves the tile. */
  predicate Still(op: RclOp, tile: (byte, byte)) {
    !op.WaitSemaphore? && !op.Branch? && (op.TileCoords? ==> (op.x, op.y) == tile)
  }

  lemma {:induction false} StillRun(s: Sim, ops: seq<RclOp>, tile: (byte, byte))
    requires forall op <- ops :: Still(op, tile)
    ensures var t := Run(s, ops);
            && t.n == s.n + |ops| && t.visits == s.visits && t.waits == s.waits
            && (s.at == Some(tile) ==> t.at == Some(tile))
    decreases |ops|
  {
    if ops != [] {
      assert Still(ops[0], tile);
      StillRun(Exec(s, ops[0]), ops[1..], tile);
    }
  }

  /** Coordinates, the one semaphore wait, the branch. */
  lemma EnterRun(a: RclArgs, s: Sim, x: byte, y: byte, first: bool)
    ensures var t := Run(s, EnterOps(a, x, y, first));
            && t.n == s.n + |EnterOps(a, x, y, first)| && t.at == Some((x, y))
            && t.visits == s.visits + [((x, y), SublistAddress(a, x, y))]
            && t.waits == if first then s.waits + [|s.visits|] else s.waits
  {
    hide SublistAddress;
    var ops := EnterOps(a, x, y, first);
    var s1, rest := Exec(s, ops[0]), ops[2..];
    var s2 := Exec(s1, ops[1]);
    assert Run(s, ops) == Run(s1, ops[1..]);
    assert ops[1..][1..] == rest;
    if first {
      assert rest[1..] == [];
      assert Run(s2, rest) == Run(Exec(s2, rest[0]), []) == Exec(s2, rest[0]);
    }
  }

  predicate TileDone(a: RclArgs, s: Sim, t: Sim, x: byte, y: byte, first: bool, last: bool) {
    && t.n == s.n + |TileOps(a, x, y, first, last)|
    && t.visits == s.visits + [((x, y), SublistAddress(a, x, y))]
    && t.waits == (if first then s.waits + [|s.visits|] else s.waits)
  }

  function LoadOps(a: RclArgs, x: byte, y: byte): seq<RclOp> {
    LoadColorOps(a, x, y) + LoadZsOps(a, x, y)
  }

  function StoreOps(a: RclArgs, x: byte, y: byte, last: bool): seq<RclOp> {
    MsaaColorOps(a, x, y, last) + MsaaZsOps(a, x, y, last) + ZsOps(a, x, y, last) + ColorOps(a, x, y, last)
  }

  lemma TileStill(a: RclArgs, x: byte, y: byte, last: bool)
    ensures forall op <- LoadOps(a, x, y) :: Still(op, (x, y))
    ensures forall op <- StoreOps(a, x, y, last) :: Still(op, (x, y))
  {
    hide FullResAddress, FullResFlags, Set;
  }

  lemma TileParts(a: RclArgs, x: byte, y: byte, first: bool, last: bool)
    ensures TileOps(a, x, y, first, last) == LoadOps(a, x, y) + EnterOps(a, x, y, first) + StoreOps(a, x, y, last)
  {
    hide LoadColorOps, LoadZsOps, EnterOps, MsaaColorOps, MsaaZsOps, ZsOps, ColorOps;
  }

  lemma TileRun(a: RclArgs, s: Sim, x: byte, y: byte, first: bool, last: bool)
    ensures TileDone(a, s, Run(s, TileOps(a, x, y, first, last)), x, y, first, last)
  {
    hide EnterOps, Run, SublistAddress, LoadOps, StoreOps, TileOps;
    var before, enter, after := LoadOps(a, x, y), EnterOps(a, x, y, first), StoreOps(a, x, y, last);
    TileParts(a, x, y, first, last);
    TileStill(a, x, y, last);
    RunAppend(s, before + enter, after);
    RunAppend(s, before, enter);
    StillRun(s, before, (x, y));
    EnterRun(a, Run(s, before), x, y, first);
    StillRun(Run(Run(s, before), enter), after, (x, y));
  }

  // ---- The whole list ----

  function Visit(a: RclArgs, xi: nat, yi: nat): ((byte, byte), u32)
    requires ValidArgs(a) && xi < XTiles(a) && yi < YTiles(a)
  {
    ((TileX(a, xi), TileY(a, yi)), SublistAddress(a, TileX(a, xi), TileY(a, yi)))
  }

  function RowVisits(a: RclArgs, yi: nat, n: nat): (v: seq<((byte, byte), u32)>)
    requires ValidArgs(a) && yi < YTiles(a) && n <= XTiles(a)
    ensures |v| == n && forall xi: nat :: xi < n ==> v[xi] == Visit(a, xi, yi)
  {
    seq(n, xi requires 0 <= xi < n => Visit(a, xi, yi))
  }

  function RowsVisits(a: RclArgs, m: nat): (v: seq<((byte, byte), u32)>)
    requires ValidArgs(a) && m <= YTiles(a)
    ensures |v| == m * XTiles(a)
  {
    if m == 0 then []
    else
      assert m * XTiles(a) == (m - 1) * XTiles(a) + XTiles(a);
      RowsVisits(a, m - 1) + RowVisits(a, m - 1, XTiles(a))
  }

  /** Progress after a list whose tiles are visits. */
  predicate Progress(s: Sim, t: Sim, ops: seq<RclOp>, visits: seq<((byte, byte), u32)>) {
    && t.n == s.n + |ops|
    && t.visits == s.visits + visits
    && t.waits == (if visits == [] then s.waits else if s.visits == [] then s.waits + [0] else s.waits)
  }

  lemma {:induction false} RowRun(a: RclArgs, s: Sim, yi: nat, n: nat)
    requires ValidArgs(a) && yi < YTiles(a) && n <= XTiles(a)
    requires s.visits == [] <==> yi == 0
    ensures Progress(s, Run(s, RowOps(a, yi, n)), RowOps(a, yi, n), RowVisits(a, yi, n))
  {
    hide TileOps, TileX, TileY, SublistAddress;
    if n == 0 {
      assert s.visits + [] == s.visits;
    } else {
      hide Run;
      var xi := n - 1;
      RowRun(a, s, yi, xi);
      var s' := Run(s, RowOps(a, yi, xi));
      RunAppend(s, RowOps(a, yi, xi), VisitOps(a, xi, yi));
      TileRun(a, s', TileX(a, xi), TileY(a, yi), xi == 0 && yi == 0, xi == XTiles(a) - 1 && yi == YTiles(a) - 1);
      assert RowVisits(a, yi, n) == RowVisits(a, yi, xi) + [Visit(a, xi, yi)];
      assert s.visits + RowVisits(a, yi, xi) + [Visit(a, xi, yi)] == s.visits + RowVisits(a, yi, n);
    }
  }

  lemma {:induction false} RowsRun(a: RclArgs, s: Sim, m: nat)
    requires ValidArgs(a) && m <= YTiles(a) && s.visits == []
    ensures Progress(s, Run(s, RowsOps(a, m)), RowsOps(a, m), RowsVisits(a, m))
  {
    hide RowOps, RowVisits;
    if m == 0 {
      assert s.visits + [] == s.visits;
    } else {
      hide Run;
      RowsRun(a, s, m - 1);
      var s' := Run(s, RowsOps(a, m - 1));
      RunAppend(s, RowsOps(a, m - 1), RowOps(a, m - 1, XTiles(a)));
      if m > 1 {
        assert (m - 1) * XTiles(a) >= 1;
      }
      RowRun(a, s', m - 1, XTiles(a));
      assert s.visits + RowsVisits(a, m - 1) + RowVisits(a, m - 1, XTiles(a)) == s.visits + RowsVisits(a, m);
    }
  }

  /**
   * The whole list: every tile visited in the requested order with its own
   * sublist, and one semaphore wait, before the first branch.
   */
  lemma RenderListRun(a: RclArgs)
    requires ValidArgs(a)
    ensures var t := Run(SIM_START, RclOps(a));
            t.n == |RclOps(a)| && t.visits == RowsVisits(a, YTiles(a)) && t.waits == [0]
  {
    hide Run, RowsOps, HeaderOps;
    var s := Run(SIM_START, HeaderOps(a));
    HeaderStill(a);
    StillRun(SIM_START, HeaderOps(a), (0, 0));
    RunAppend(SIM_START, HeaderOps(a), RowsOps(a, YTiles(a)));
    RowsRun(a, s, YTiles(a));
    assert YTiles(a) * XTiles(a) >= 1;
    assert [] + RowsVisits(a, YTiles(a)) == RowsVisits(a, YTiles(a));
  }

  lemma HeaderStill(a: RclArgs)
    ensures forall op <- HeaderOps(a) :: Still(op, (0, 0)) && !EndsFrame(op)
  {
    assert !BitSet(0, EOF);
  }

  // ---- The end of the frame ----

  predicate AnyWrite(a: RclArgs) {
    a.colorWrite.Some? || a.zsWrite.Some? || a.msaaColor.Some? || a.msaaZs.Some?
  }

  /** How many packets of a list end the frame. */
  function Ends(ops: seq<RclOp>): nat {
    if ops == [] then 0 else (if EndsFrame(ops[0]) then 1 else 0) + Ends(ops[1..])
  }

  lemma {:induction false} EndsAppend(a: seq<RclOp>, b: seq<RclOp>)
    ensures Ends(a + b) == Ends(a) + Ends(b)
    decreases |a|
  {
    if a == [] {
      assert a + b == b;
    } else {
      EndsAppend(a[1..], b);
      assert (a + b)[1..] == a[1..] + b;
    }
  }

  lemma {:induction false} EndsOfRun(s: Sim, ops: seq<RclOp>)
    ensures var t := Run(s, ops);
            && t.n == s.n + |ops| && |t.ends| == |s.ends| + Ends(ops)
            && (ops != [] && EndsFrame(ops[|ops| - 1]) ==> t.ends != [] && t.ends[|t.ends| - 1] == t.n - 1)
    decreases |ops|
  {
    if ops != [] {
      EndsOfRun(Exec(s, ops[0]), ops[1..]);
    }
  }

  /** A surface whose address carries the end-of-frame bit. */
  predicate Marked(s: Surface) {
    BitSet(Wrap(s.bus + s.offset), EOF)
  }

  function Mark(s: Option<Surface>): nat {
    if s.Some? && Marked(s.value) then 1 else 0
  }

  /** The surface written last in every tile, when colour is not. */
  predicate LastMsaaColor(a: RclArgs) {
    a.msaaColor.Some? && a.msaaZs.None? && a.zsWrite.None? && a.colorWrite.None?
  }

  predicate LastMsaaZs(a: RclArgs) {
    a.msaaZs.Some? && a.zsWrite.None? && a.colorWrite.None?
  }

  predicate LastZs(a: RclArgs) {
    a.zsWrite.Some? && a.colorWrite.None?
  }

  /** Ends of frame in one tile: its marked surfaces, save one that is made to end the last tile anyway. */
  function TileEnds(a: RclArgs, last: bool): nat {
    Mark(a.colorRead) + Mark(a.zsRead)
    + (if last && LastMsaaColor(a) then 0 else Mark(a.msaaColor))
    + (if last && LastMsaaZs(a) then 0 else Mark(a.msaaZs))
    + (if last && LastZs(a) then 0 else Mark(a.zsWrite))
    + (if last && AnyWrite(a) then 1 else 0)
  }

  lemma WrapMod16(x: int)
    ensures Wrap(x) % 16 == x % 16
  {
    var q, r := x / 0x1_0000_0000, Wrap(x);
    assert x == (q * 0x1000_0000 + r / 16) * 16 + r % 16;
    DivUnique(x, q * 0x1000_0000 + r / 16, 16, r % 16);
  }

  /** Bit 3 is bit 3 of the low four bits. */
  lemma LowBit(v: u32)
    ensures BitSet(v, EOF) <==> v % 16 >= 8
  {
    assert v == 16 * (v / 16) + v % 16;
    assert v / 8 == 2 * (v / 16) + v % 16 / 8;
  }

  /** Or-ing a lower bit in leaves bit 3 alone. */
  lemma SetKeeps(v: u32, b: u32)
    requires b in {1, 2, 4}
    ensures BitSet(Set(v, b), EOF) <==> BitSet(v, EOF)
  {
    if !BitSet(v, b) {
      Below8(v, b);
    }
  }

  lemma Below8(v: nat, b: nat)
    requires b in {1, 2, 4} && v / b % 2 == 0
    ensures (v + b) / 8 == v / 8
  {
    var q, r := v / 8, v % 8;
    if b == 1 {
      assert v == 2 * (4 * q) + r;
      assert r != 7;
    } else if b == 2 {
      assert v / 2 == 2 * (2 * q) + r / 2;
      assert r < 6;
    } else {
      assert v / 4 == 2 * q + r / 4;
      assert r < 4;
    }
    DivUnique(v + b, q, 8, r + b);
  }

  lemma SetEof(v: u32)
    ensures BitSet(Set(v, EOF), EOF)
  {
    if !BitSet(v, EOF) {
      assert (v + 8) / 8 == v / 8 + 1;
    }
  }

  /** The flag bits end the frame when they are to, or when the surface is marked. */
  lemma FullResEnds(a: RclArgs, s: Surface, x: byte, y: byte, disable: u32, lastWrite: bool, last: bool)
    requires disable in {1, 2}
    ensures BitSet(FullResFlags(FullResAddress(a, s, x, y), disable, lastWrite, last), EOF)
       <==> Marked(s) || (lastWrite && last)
    ensures BitSet(Set(FullResAddress(a, s, x, y), disable), EOF) <==> Marked(s)
  {
    hide BitSet, Set, Wrap;
    var v, base, k := FullResAddress(a, s, x, y), (s.bus as int) + s.offset, (a.width + 63) / 64 * y + x;
    WrapMod16(base);
    WrapMod16(base + 16384 * k);
    DivUnique(base + 16384 * k, base / 16 + 1024 * k, 16, base % 16);
    LowBit(v);
    LowBit(Wrap(base));
    SetKeeps(v, disable);
    SetKeeps(Set(v, disable), DISABLE_CLEAR_ALL);
    SetEof(Set(v, disable));
  }

  lemma EndsOne(op: RclOp)
    ensures Ends([op]) == if EndsFrame(op) then 1 else 0
  {
    assert [op][1..] == [];
  }

  /** Coordinates before a store change nothing. */
  lemma EndsStore(x: byte, y: byte, coords: bool, op: RclOp)
    ensures Ends((if coords then [TileCoords(x, y)] else []) + [op]) == if EndsFrame(op) then 1 else 0
  {
    hide BitSet;
    EndsOne(op);
    EndsAppend(if coords then [TileCoords(x, y)] else [], [op]);
    if coords {
      EndsOne(TileCoords(x, y));
      assert !EndsFrame(TileCoords(x, y));
    }
  }

  lemma LoadEnds(a: RclArgs, x: byte, y: byte)
    ensures Ends(LoadColorOps(a, x, y) + LoadZsOps(a, x, y)) == Mark(a.colorRead) + Mark(a.zsRead)
  {
    hide FullResAddress, Set, Wrap, FullResFlags, BitSet;
    EndsAppend(LoadColorOps(a, x, y), LoadZsOps(a, x, y));
    if a.colorRead.Some? {
      FullResEnds(a, a.colorRead.value, x, y, DISABLE_ZS, false, false);
      EndsOne(LoadOp(a, a.colorRead.value, x, y, DISABLE_ZS));
    }
    if a.zsRead.Some? {
      var op := LoadOp(a, a.zsRead.value, x, y, DISABLE_COLOR);
      FullResEnds(a, a.zsRead.value, x, y, DISABLE_COLOR, false, false);
      var store := StoreGeneral(STORE_NONE, 0);
      if a.colorRead.Some? {
        assert [TileCoords(x, y), store] == [TileCoords(x, y)] + [store];
        assert !EndsFrame(store) by {
          LowBit(0);
        }
        EndsStore(x, y, true, store);
        EndsAppend([TileCoords(x, y), store], [op]);
        EndsOne(op);
      } else {
        EndsStore(x, y, false, op);
      }
    }
  }

  lemma MsaaEnds(a: RclArgs, x: byte, y: byte, last: bool)
    ensures Ends(MsaaColorOps(a, x, y, last)) == if last && LastMsaaColor(a) then 1 else Mark(a.msaaColor)
    ensures Ends(MsaaZsOps(a, x, y, last)) == if last && LastMsaaZs(a) then 1 else Mark(a.msaaZs)
  {
    hide FullResAddress, FullResFlags, Set, BitSet;
    if a.msaaColor.Some? {
      var s := a.msaaColor.value;
      FullResEnds(a, s, x, y, DISABLE_ZS, LastMsaaColor(a), last);
      var op := StoreFullRes(FullResFlags(FullResAddress(a, s, x, y), DISABLE_ZS, LastMsaaColor(a), last));
      EndsOne(op);
      assert MsaaColorOps(a, x, y, last) == [op];
    }
    if a.msaaZs.Some? {
      var s := a.msaaZs.value;
      FullResEnds(a, s, x, y, DISABLE_COLOR, LastMsaaZs(a), last);
      EndsStore(x, y, a.msaaColor.Some?,
                StoreFullRes(FullResFlags(FullResAddress(a, s, x, y), DISABLE_COLOR, LastMsaaZs(a), last)));
    }
  }

  lemma StoreEnds(a: RclArgs, x: byte, y: byte, last: bool)
    ensures Ends(ZsOps(a, x, y, last)) == if last && LastZs(a) then 1 else Mark(a.zsWrite)
    ensures Ends(ColorOps(a, x, y, last)) == if last && a.colorWrite.Some? then 1 else 0
  {
    hide Set, BitSet;
    if a.zsWrite.Some? {
      var address := Wrap(a.zsWrite.value.bus + a.zsWrite.value.offset);
      SetEof(address);
      EndsStore(x, y, a.msaaColor.Some? || a.msaaZs.Some?,
                StoreGeneral(if LastZs(a) then a.zsWrite.value.bits else Set(a.zsWrite.value.bits, DISABLE_COLOR_CLEAR),
                             if last && LastZs(a) then Set(address, EOF) else address));
    }
    if a.colorWrite.Some? {
      EndsStore(x, y, a.msaaColor.Some? || a.msaaZs.Some? || a.zsWrite.Some?, if last then StoreMsEof else StoreMs);
    }
  }

  lemma EnterEnds(a: RclArgs, x: byte, y: byte, first: bool)
    ensures Ends(EnterOps(a, x, y, first)) == 0
  {
    EndsAppend([TileCoords(x, y)] + (if first then [WaitSemaphore] else []), [Branch(SublistAddress(a, x, y))]);
    EndsAppend([TileCoords(x, y)], if first then [WaitSemaphore] else []);
    EndsOne(TileCoords(x, y));
    EndsOne(WaitSemaphore);
    EndsOne(Branch(SublistAddress(a, x, y)));
  }

  lemma TileEndsAre(a: RclArgs, x: byte, y: byte, first: bool, last: bool)
    ensures Ends(TileOps(a, x, y, first, last)) == TileEnds(a, last) && TileOps(a, x, y, first, last) != []
    ensures last && AnyWrite(a) ==> EndsFrame(TileOps(a, x, y, first, last)[|TileOps(a, x, y, first, last)| - 1])
  {
    hide LoadColorOps, LoadZsOps, Mark, BitSet, Set, Ends, FullResAddress, FullResFlags, SublistAddress;
    var p1, p2, p3 := LoadColorOps(a, x, y), LoadZsOps(a, x, y), EnterOps(a, x, y, first);
    var p4, p5 := MsaaColorOps(a, x, y, last), MsaaZsOps(a, x, y, last);
    var p6, p7 := ZsOps(a, x, y, last), ColorOps(a, x, y, last);
    EndsAppend(p1 + p2 + p3 + p4 + p5 + p6, p7);
    EndsAppend(p1 + p2 + p3 + p4 + p5, p6);
    EndsAppend(p1 + p2 + p3 + p4, p5);
    EndsAppend(p1 + p2 + p3, p4);
    EndsAppend(p1 + p2, p3);
    LoadEnds(a, x, y);
    EnterEnds(a, x, y, first);
    MsaaEnds(a, x, y, last);
    StoreEnds(a, x, y, last);
    if last && AnyWrite(a) {
      LastEnds(a, x, y);
      var tail := if p7 != [] then p7 else if p6 != [] then p6 else if p5 != [] then p5 else p4;
      var ops := TileOps(a, x, y, first, last);
      assert ops[|ops| - 1] == tail[|tail| - 1];
    }
  }

  /** The last write of the last tile ends the frame. */
  lemma LastEnds(a: RclArgs, x: byte, y: byte)
    requires AnyWrite(a)
    ensures var p4, p5 := MsaaColorOps(a, x, y, true), MsaaZsOps(a, x, y, true);
            var p6, p7 := ZsOps(a, x, y, true), ColorOps(a, x, y, true);
            var tail := if p7 != [] then p7 else if p6 != [] then p6 else if p5 != [] then p5 else p4;
            tail != [] && EndsFrame(tail[|tail| - 1])
  {
    hide BitSet, Set, FullResAddress, FullResFlags;
    if LastMsaaColor(a) {
      FullResEnds(a, a.msaaColor.value, x, y, DISABLE_ZS, true, true);
    } else if LastMsaaZs(a) {
      FullResEnds(a, a.msaaZs.value, x, y, DISABLE_COLOR, true, true);
    } else if LastZs(a) {
      SetEof(Wrap(a.zsWrite.value.bus + a.zsWrite.value.offset));
    }
  }

  /** Tiles before the last one end the frame exactly when some surface is marked. */
  lemma {:induction false} RowEnds(a: RclArgs, yi: nat, n: nat)
    requires ValidArgs(a) && yi < YTiles(a) && n <= XTiles(a) && (n < XTiles(a) || yi < YTiles(a) - 1)
    ensures Ends(RowOps(a, yi, n)) == 0 <==> n == 0 || TileEnds(a, false) == 0
  {
    hide TileOps, TileX, TileY, TileEnds;
    if n > 0 {
      var xi := n - 1;
      RowEnds(a, yi, xi);
      EndsAppend(RowOps(a, yi, xi), VisitOps(a, xi, yi));
      TileEndsAre(a, TileX(a, xi), TileY(a, yi), xi == 0 && yi == 0, false);
    }
  }

  lemma {:induction false} RowsEnds(a: RclArgs, m: nat)
    requires ValidArgs(a) && m < YTiles(a)
    ensures Ends(RowsOps(a, m)) == 0 <==> m == 0 || TileEnds(a, false) == 0
  {
    hide RowOps, TileEnds;
    if m > 0 {
      RowsEnds(a, m - 1);
      EndsAppend(RowsOps(a, m - 1), RowOps(a, m - 1, XTiles(a)));
      RowEnds(a, m - 1, XTiles(a));
    }
  }

  lemma {:induction false} NoEnds(ops: seq<RclOp>)
    requires forall op <- ops :: !EndsFrame(op)
    ensures Ends(ops) == 0
    decreases |ops|
  {
    if ops != [] {
      assert !EndsFrame(ops[0]);
      NoEnds(ops[1..]);
    }
  }

  predicate SingleTile(a: RclArgs)
    requires ValidArgs(a)
  {
    XTiles(a) == 1 && YTiles(a) == 1
  }

  /** No surface used before the last packet carries the end-of-frame bit. */
  predicate Unmarked(a: RclArgs)
    requires ValidArgs(a)
  {
    && (a.colorRead.Some? ==> !Marked(a.colorRead.value)) && (a.zsRead.Some? ==> !Marked(a.zsRead.value))
    && (a.msaaColor.Some? && !(SingleTile(a) && LastMsaaColor(a)) ==> !Marked(a.msaaColor.value))
    && (a.msaaZs.Some? && !(SingleTile(a) && LastMsaaZs(a)) ==> !Marked(a.msaaZs.value))
    && (a.zsWrite.Some? && !(SingleTile(a) && LastZs(a)) ==> !Marked(a.zsWrite.value))
  }

  lemma EndsTotal(a: RclArgs)
    requires ValidArgs(a)
    ensures var all, w := Ends(RclOps(a)), if AnyWrite(a) then 1 else 0;
            all >= w && (all == w <==> TileEnds(a, true) == w && (SingleTile(a) || TileEnds(a, false) == 0))
    ensures AnyWrite(a) ==> RclOps(a) != [] && EndsFrame(RclOps(a)[|RclOps(a)| - 1])
  {
    hide TileOps, TileX, TileY, HeaderOps, Ends, EndsFrame, Mark;
    var x, y := XTiles(a) - 1, YTiles(a) - 1;
    HeaderStill(a);
    NoEnds(HeaderOps(a));
    RowsEnds(a, y);
    RowEnds(a, y, x);
    TileEndsAre(a, TileX(a, x), TileY(a, y), x == 0 && y == 0, true);
    EndsAppend(HeaderOps(a), RowsOps(a, y + 1));
    EndsAppend(RowsOps(a, y), RowOps(a, y, x + 1));
    EndsAppend(RowOps(a, y, x), VisitOps(a, x, y));
    var ops, last := RclOps(a), VisitOps(a, x, y);
    assert ops == HeaderOps(a) + (RowsOps(a, y) + (RowOps(a, y, x) + last));
    assert ops[|ops| - 1] == last[|last| - 1];
  }

  /**
   * The frame ends exactly once, in the last packet and when something is
   * written, if and only if no surface used before that packet is marked.
   */
  lemma FrameEndsExactly(a: RclArgs)
    requires ValidArgs(a)
    ensures Run(SIM_START, RclOps(a)).ends == (if AnyWrite(a) then [|RclOps(a)| - 1] else []) <==> Unmarked(a)
  {
    hide RclOps, Run, Ends, EndsFrame, Wrap, BitSet;
    EndsTotal(a);
    EndsOfRun(SIM_START, RclOps(a));
  }

  /** Sixteen-byte alignment, which the hardware asks for, is enough. */
  lemma AlignedUnmarked(s: Surface)
    requires Wrap(s.bus + s.offset) % 16 == 0
    ensures !Marked(s)
  {
    LowBit(Wrap(s.bus + s.offset));
  }

  /** A two-tile frame whose depth buffer lies eight bytes off: it ends on its first tile. */
  function Skewed(): RclArgs {
    RclArgs(0, 0, 1, 0, 128, 64, false, 0, 0, 0, 0, false, false, false, None, None, 0, None,
            Some(Surface(0x1008, 0, 0, false)), None, None, 0, 2)
  }

  lemma SkewedEndsEarly(a: RclArgs)
    requires a == Skewed()
    ensures ValidArgs(a) && AnyWrite(a) && !Unmarked(a)
    ensures Run(SIM_START, RclOps(a)).ends != [|RclOps(a)| - 1]
  {
    hide RclOps, Run;
    FrameEndsExactly(a);
    assert BitSet(0x1008, EOF);
  }

  // ---- Every tile exactly once ----

  lemma {:induction false} VisitAt(a: RclArgs, m: nat, xi: nat, yi: nat)
    requires ValidArgs(a) && m <= YTiles(a) && xi < XTiles(a) && yi < m
    ensures yi * XTiles(a) + xi < |RowsVisits(a, m)|
    ensures RowsVisits(a, m)[yi * XTiles(a) + xi] == Visit(a, xi, yi)
  {
    var w := XTiles(a);
    assert m * w == (m - 1) * w + w;
    if yi == m - 1 {
      assert RowsVisits(a, m)[yi * w + xi] == RowVisits(a, yi, w)[xi];
    } else {
      VisitAt(a, m - 1, xi, yi);
    }
  }

  /** Column and row counters of a tile of the rectangle. */
  function Column(a: RclArgs, x: byte): nat
    requires ValidArgs(a) && a.minX <= x <= a.maxX
  {
    if PositiveX(a) then x - a.minX else a.maxX - x
  }

  function Row(a: RclArgs, y: byte): nat
    requires ValidArgs(a) && a.minY <= y <= a.maxY
  {
    if PositiveY(a) then y - a.minY else a.maxY - y
  }

  /** Position of a tile in the visiting order. */
  function Position(a: RclArgs, x: byte, y: byte): nat
    requires ValidArgs(a) && a.minX <= x <= a.maxX && a.minY <= y <= a.maxY
  {
    Row(a, y) * XTiles(a) + Column(a, x)
  }

  lemma {:induction false} Locate(i: nat, w: nat, h: nat) returns (yi: nat, xi: nat)
    requires i < h * w
    ensures yi < h && xi < w && i == yi * w + xi
  {
    assert h > 0;
    assert h * w == (h - 1) * w + w;
    if i < (h - 1) * w {
      yi, xi := Locate(i, w, h - 1);
    } else {
      yi, xi := h - 1, i - (h - 1) * w;
    }
  }

  /** Nothing outside the rectangle is visited, and no tile at two positions. */
  lemma TileVisitedOnce(a: RclArgs, i: nat)
    requires ValidArgs(a) && i < |RowsVisits(a, YTiles(a))|
    ensures var v := RowsVisits(a, YTiles(a))[i];
            && a.minX <= v.0.0 <= a.maxX && a.minY <= v.0.1 <= a.maxY
            && i == Position(a, v.0.0, v.0.1)
            && v.1 == (a.tileAllocBus + 32 * (v.0.1 * a.binTilesX + v.0.0)) % 0x1_0000_0000
  {
    hide RowsVisits;
    var yi, xi := Locate(i, XTiles(a), YTiles(a));
    VisitAt(a, YTiles(a), xi, yi);
    assert Column(a, TileX(a, xi)) == xi && Row(a, TileY(a, yi)) == yi;
  }

  /** Every tile of the rectangle is visited. */
  lemma EveryTileVisited(a: RclArgs, x: byte, y: byte)
    requires ValidArgs(a) && a.minX <= x <= a.maxX && a.minY <= y <= a.maxY
    ensures Position(a, x, y) < |RowsVisits(a, YTiles(a))|
    ensures RowsVisits(a, YTiles(a))[Position(a, x, y)].0 == (x, y)
  {
    hide RowsVisits;
    VisitAt(a, YTiles(a), Column(a, x), Row(a, y));
  }
}
