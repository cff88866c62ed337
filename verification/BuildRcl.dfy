/** build_rcl: the nested tile loops, proved to write the list of the specification. */
module BuildRcl {
  import opened Bytes
  import opened RenderList
  import opened RenderExec

  lemma OpsAssoc(a: seq<RclOp>, b: seq<RclOp>, c: seq<RclOp>)
    ensures a + (b + c) == (a + b) + c
  {
  }

  method Load(b: RclBuilder, a: RclArgs, s: Surface, x: byte, y: byte, disable: u32, ghost ops: seq<RclOp>)
    requires b.Valid() && b.Wrote(ops) && disable in {1, 2}
    modifies b, b.data
    ensures b.Valid() && b.Wrote(ops + [LoadOp(a, s, x, y, disable)])
  {
    hide RclBuilder.Wrote, RclBuilder.Valid, Set, FullResAddress, Wrap;
    if s.fullRes {
      b.Address(LoadFullRes(Set(FullResAddress(a, s, x, y), disable)), ops);
    } else {
      b.General(LoadGeneral(s.bits, Wrap(s.bus + s.offset)), ops);
    }
  }

  method LoadTile(b: RclBuilder, a: RclArgs, x: byte, y: byte, ghost ops: seq<RclOp>)
    requires b.Valid() && b.Wrote(ops)
    modifies b, b.data
    ensures b.Valid() && b.Wrote(ops + LoadColorOps(a, x, y) + LoadZsOps(a, x, y))
  {
    hide LoadOp, RclBuilder.Wrote;
    ghost var done := ops + LoadColorOps(a, x, y);
    if a.colorRead.Some? {
      Load(b, a, a.colorRead.value, x, y, DISABLE_ZS, ops);
    } else {
      assert done == ops;
    }
    if a.zsRead.Some? {
      ghost var op := LoadOp(a, a.zsRead.value, x, y, DISABLE_COLOR);
      if a.colorRead.Some? {
        b.Coords(x, y, done);
        b.General(StoreGeneral(STORE_NONE, 0), done + [TileCoords(x, y)]);
        ghost var pre := [TileCoords(x, y), StoreGeneral(STORE_NONE, 0)];
        assert done + [TileCoords(x, y)] + [StoreGeneral(STORE_NONE, 0)] == done + pre;
        Load(b, a, a.zsRead.value, x, y, DISABLE_COLOR, done + pre);
        OpsAssoc(done, pre, [op]);
      } else {
        Load(b, a, a.zsRead.value, x, y, DISABLE_COLOR, done);
        assert [] + [op] == [op];
      }
    } else {
      assert done + [] == done;
    }
  }

  method EnterTile(b: RclBuilder, a: RclArgs, x: byte, y: byte, first: bool, ghost ops: seq<RclOp>)
    requires b.Valid() && b.Wrote(ops)
    modifies b, b.data
    ensures b.Valid() && b.Wrote(ops + EnterOps(a, x, y, first))
  {
    hide SublistAddress, RclBuilder.Wrote;
    ghost var c := [TileCoords(x, y)];
    ghost var w := if first then [WaitSemaphore] else [];
    b.Coords(x, y, ops);
    if first {
      b.Bare(WaitSemaphore, ops + c);
    } else {
      assert ops + c + w == ops + c;
    }
    b.Address(Branch(SublistAddress(a, x, y)), ops + c + w);
    OpsAssoc(ops, c, w);
    OpsAssoc(ops, c + w, [Branch(SublistAddress(a, x, y))]);
  }

  /** Repeat the coordinates when an earlier store used them up, then store. */
  method CoordsIf(b: RclBuilder, coords: bool, x: byte, y: byte, ghost ops: seq<RclOp>)
    requires b.Valid() && b.Wrote(ops)
    modifies b, b.data
    ensures b.Valid() && b.Wrote(ops + if coords then [TileCoords(x, y)] else [])
  {
    if coords {
      b.Coords(x, y, ops);
    } else {
      assert ops + [] == ops;
    }
  }

  method StoreMsaa(b: RclBuilder, a: RclArgs, x: byte, y: byte, last: bool, ghost ops: seq<RclOp>)
    requires b.Valid() && b.Wrote(ops)
    modifies b, b.data
    ensures b.Valid() && b.Wrote(ops + MsaaColorOps(a, x, y, last) + MsaaZsOps(a, x, y, last))
  {
    hide FullResAddress, FullResFlags, RclBuilder.Wrote;
    ghost var done := ops + MsaaColorOps(a, x, y, last);
    if a.msaaColor.Some? {
      var lastWrite := a.msaaZs.None? && a.zsWrite.None? && a.colorWrite.None?;
      var address := FullResAddress(a, a.msaaColor.value, x, y);
      b.Address(StoreFullRes(FullResFlags(address, DISABLE_ZS, lastWrite, last)), ops);
    } else {
      assert done == ops;
    }
    if a.msaaZs.Some? {
      var lastWrite := a.zsWrite.None? && a.colorWrite.None?;
      var op := StoreFullRes(FullResFlags(FullResAddress(a, a.msaaZs.value, x, y), DISABLE_COLOR, lastWrite, last));
      ghost var pre := if a.msaaColor.Some? then [TileCoords(x, y)] else [];
      CoordsIf(b, a.msaaColor.Some?, x, y, done);
      b.Address(op, done + pre);
      OpsAssoc(done, pre, [op]);
    } else {
      assert done + [] == done;
    }
  }

  method StoreZsAndColor(b: RclBuilder, a: RclArgs, x: byte, y: byte, last: bool, ghost ops: seq<RclOp>)
    requires b.Valid() && b.Wrote(ops)
    modifies b, b.data
    ensures b.Valid() && b.Wrote(ops + ZsOps(a, x, y, last) + ColorOps(a, x, y, last))
  {
    hide Set, RclBuilder.Wrote;
    var m := a.msaaColor.Some? || a.msaaZs.Some?;
    ghost var done := ops + ZsOps(a, x, y, last);
    if a.zsWrite.Some? {
      var lastWrite, address := a.colorWrite.None?, Wrap(a.zsWrite.value.bus + a.zsWrite.value.offset);
      var op := StoreGeneral(if lastWrite then a.zsWrite.value.bits else Set(a.zsWrite.value.bits, DISABLE_COLOR_CLEAR),
                             if last && lastWrite then Set(address, EOF) else address);
      ghost var pre := if m then [TileCoords(x, y)] else [];
      CoordsIf(b, m, x, y, ops);
      b.General(op, ops + pre);
      OpsAssoc(ops, pre, [op]);
    } else {
      assert done == ops;
    }
    if a.colorWrite.Some? {
      var op := if last then StoreMsEof else StoreMs;
      ghost var pre := if m || a.zsWrite.Some? then [TileCoords(x, y)] else [];
      CoordsIf(b, m || a.zsWrite.Some?, x, y, done);
      b.Bare(op, done + pre);
      OpsAssoc(done, pre, [op]);
    } else {
      assert done + [] == done;
    }
  }

  method RenderTile(b: RclBuilder, a: RclArgs, x: byte, y: byte, first: bool, last: bool, ghost ops: seq<RclOp>)
    requires b.Valid() && b.Wrote(ops)
    modifies b, b.data
    ensures b.Valid() && b.Wrote(ops + TileOps(a, x, y, first, last))
  {
    hide LoadColorOps, LoadZsOps, EnterOps, MsaaColorOps, MsaaZsOps, ZsOps, ColorOps, RclBuilder.Wrote;
    ghost var p1, p2, p3 := LoadColorOps(a, x, y), LoadZsOps(a, x, y), EnterOps(a, x, y, first);
    ghost var p4, p5 := MsaaColorOps(a, x, y, last), MsaaZsOps(a, x, y, last);
    LoadTile(b, a, x, y, ops);
    EnterTile(b, a, x, y, first, ops + p1 + p2);
    StoreMsaa(b, a, x, y, last, ops + p1 + p2 + p3);
    StoreZsAndColor(b, a, x, y, last, ops + p1 + p2 + p3 + p4 + p5);
    assert ops + TileOps(a, x, y, first, last)
        == ops + p1 + p2 + p3 + p4 + p5 + ZsOps(a, x, y, last) + ColorOps(a, x, y, last);
  }

  method RenderHeader(b: RclBuilder, a: RclArgs)
    requires b.Valid() && b.Wrote([])
    modifies b, b.data
    ensures b.Valid() && b.Wrote(HeaderOps(a))
  {
    hide RclBuilder.Wrote;
    var target := if a.colorWrite.Some? then Wrap(a.colorWrite.value.bus + a.colorWrite.value.offset) else 0;
    var config := RenderConfig(target,
                               a.width, a.height, a.colorWriteBits);
    if a.useClear {
      var c := ClearColors(a.clear0, a.clear1, a.clearZ, a.clearS);
      b.Clear(c, []);
      assert [] + [c] == [c];
      b.Coords(0, 0, [c]);
      b.General(StoreGeneral(0, 0), [c] + [TileCoords(0, 0)]);
      assert [c] + [TileCoords(0, 0)] + [StoreGeneral(0, 0)] == [c, TileCoords(0, 0), StoreGeneral(0, 0)];
      b.Config(config, [c, TileCoords(0, 0), StoreGeneral(0, 0)]);
    } else {
      b.Config(config, []);
    }
  }

  /** The first n tiles of a row, without a base case to unfold. */
  lemma RowStep(a: RclArgs, yi: nat, n: nat)
    requires ValidArgs(a) && yi < YTiles(a) && n < XTiles(a)
    ensures RowOps(a, yi, 0) == []
    ensures RowOps(a, yi, n + 1) == RowOps(a, yi, n)
         + TileOps(a, TileX(a, n), TileY(a, yi), n == 0 && yi == 0, n == XTiles(a) - 1 && yi == YTiles(a) - 1)
  {
    hide TileOps;
  }

  method RenderRow(b: RclBuilder, a: RclArgs, yi: nat, ghost above: seq<RclOp>)
    requires ValidArgs(a) && yi < YTiles(a) && b.Valid() && b.Wrote(above)
    modifies b, b.data
    ensures b.Valid() && b.Wrote(above + RowOps(a, yi, XTiles(a)))
  {
    hide TileOps, RowOps, RclBuilder.Wrote, RclBuilder.Valid;
    var y, xi := TileY(a, yi), 0;
    RowStep(a, yi, 0);
    assert above + [] == above;
    while xi < XTiles(a)
      invariant 0 <= xi <= XTiles(a) && b.Valid()
      invariant b.Wrote(above + RowOps(a, yi, xi))
    {
      var x, first, last := TileX(a, xi), xi == 0 && yi == 0, xi == XTiles(a) - 1 && yi == YTiles(a) - 1;
      RenderTile(b, a, x, y, first, last, above + RowOps(a, yi, xi));
      RowStep(a, yi, xi);
      OpsAssoc(above, RowOps(a, yi, xi), TileOps(a, x, y, first, last));
      xi := xi + 1;
    }
  }

  lemma RowsStep(a: RclArgs, m: nat)
    requires ValidArgs(a) && m < YTiles(a)
    ensures RowsOps(a, 0) == []
    ensures RowsOps(a, m + 1) == RowsOps(a, m) + RowOps(a, m, XTiles(a))
  {
    hide RowOps;
  }

  /** build_rcl: size is always the full length; ok says the list fits, and then it is in the buffer. */
  method BuildRenderList(a: RclArgs, data: array<byte>, maxSize: nat) returns (ok: bool, size: nat)
    requires ValidArgs(a) && maxSize <= data.Length
    modifies data
    ensures size == |EncodeOps(RclOps(a))|
    ensures ok == (size <= maxSize)
    ensures ok ==> data[..size] == EncodeOps(RclOps(a))
  {
    hide HeaderOps, RowOps, RowsOps, EncodeOps;
    var b := new RclBuilder(data, maxSize);
    EncodeNothing();
    RenderHeader(b, a);
    ghost var head := HeaderOps(a);
    assert head + [] == head;
    var yi := 0;
    RowsStep(a, 0);
    while yi < YTiles(a)
      invariant 0 <= yi <= YTiles(a) && b.Valid() && fresh(b)
      invariant b.Wrote(head + RowsOps(a, yi))
    {
      RenderRow(b, a, yi, head + RowsOps(a, yi));
      RowsStep(a, yi);
      OpsAssoc(head, RowsOps(a, yi), RowOps(a, yi, XTiles(a)));
      yi := yi + 1;
    }
    size := b.offset;
    ok := b.offset <= maxSize;
  }

  lemma EncodeNothing()
    ensures EncodeOps([]) == []
  {
  }
}
