/** build_rcl's byte writer: what it stores, how long it gets, how the V3D reads it back. */
module RenderExec {
  import opened Bytes
  import opened Packets
  import opened RenderList

  // ---- Length ----

  lemma {:induction false} EncodeOpsAppend(a: seq<RclOp>, b: seq<RclOp>)
    ensures EncodeOps(a + b) == EncodeOps(a) + EncodeOps(b)
    decreases |b|
  {
    hide EncodeOp;
    if b == [] {
      assert a + b == a && EncodeOps(a) + [] == EncodeOps(a);
    } else {
      var front, last := b[..|b| - 1], b[|b| - 1];
      EncodeOpsAppend(a, front);
      assert (a + b)[..|a + b| - 1] == a + front && (a + b)[|a + b| - 1] == last;
      Assoc(EncodeOps(a), EncodeOps(front), EncodeOp(last));
    }
  }

  function Size(ops: seq<RclOp>): nat {
    if ops == [] then 0 else Size(ops[..|ops| - 1]) + OpSize(ops[|ops| - 1])
  }

  lemma {:induction false} SizeIsLength(ops: seq<RclOp>)
    ensures |EncodeOps(ops)| == Size(ops)
  {
    hide EncodeOp;
    if ops != [] {
      SizeIsLength(ops[..|ops| - 1]);
    }
  }

  lemma {:induction false} SizeAppend(a: seq<RclOp>, b: seq<RclOp>)
    ensures Size(a + b) == Size(a) + Size(b)
    decreases |b|
  {
    if b == [] {
      assert a + b == a;
    } else {
      var front, last := b[..|b| - 1], b[|b| - 1];
      SizeAppend(a, front);
      assert (a + b)[..|a + b| - 1] == a + front && (a + b)[|a + b| - 1] == last;
    }
  }

  lemma SizeOne(op: RclOp)
    ensures Size([op]) == OpSize(op)
  {
    assert [op][..0] == [];
  }

  lemma SizeOptional(c: bool, x: byte, y: byte, op: RclOp)
    ensures Size((if c then [TileCoords(x, y)] else []) + [op]) == (if c then 3 else 0) + OpSize(op)
  {
    SizeAppend(if c then [TileCoords(x, y)] else [], [op]);
    SizeOne(op);
    SizeOne(TileCoords(x, y));
  }

  lemma LoadSize(a: RclArgs, x: byte, y: byte)
    ensures Size(LoadColorOps(a, x, y)) <= 7 && Size(LoadZsOps(a, x, y)) <= 17
  {
    hide FullResAddress, Set;
    if a.colorRead.Some? {
      SizeOne(LoadOp(a, a.colorRead.value, x, y, DISABLE_ZS));
    }
    if a.zsRead.Some? {
      var op := LoadOp(a, a.zsRead.value, x, y, DISABLE_COLOR);
      SizeOne(op);
      var pre := if a.colorRead.Some? then [TileCoords(x, y), StoreGeneral(STORE_NONE, 0)] else [];
      SizeAppend(pre, [op]);
      if a.colorRead.Some? {
        assert pre == [TileCoords(x, y)] + [StoreGeneral(STORE_NONE, 0)];
        SizeOptional(true, x, y, StoreGeneral(STORE_NONE, 0));
      }
    }
  }

  lemma EnterSize(a: RclArgs, x: byte, y: byte, first: bool)
    ensures Size(EnterOps(a, x, y, first)) <= 9
  {
    hide SublistAddress;
    var c, b := TileCoords(x, y), Branch(SublistAddress(a, x, y));
    SizeOne(c);
    SizeOne(b);
    SizeOne(WaitSemaphore);
    SizeAppend([c], if first then [WaitSemaphore] else []);
    SizeAppend([c] + (if first then [WaitSemaphore] else []), [b]);
  }

  lemma MsaaSize(a: RclArgs, x: byte, y: byte, last: bool)
    ensures Size(MsaaColorOps(a, x, y, last)) <= 5 && Size(MsaaZsOps(a, x, y, last)) <= 8
  {
    hide FullResAddress, Size;
    SizeNothing();
    if a.msaaColor.Some? {
      var lastWrite := a.msaaZs.None? && a.zsWrite.None? && a.colorWrite.None?;
      SizeOne(StoreFullRes(FullResFlags(FullResAddress(a, a.msaaColor.value, x, y), DISABLE_ZS, lastWrite, last)));
    }
    if a.msaaZs.Some? {
      var lastWrite := a.zsWrite.None? && a.colorWrite.None?;
      SizeOptional(a.msaaColor.Some?, x, y,
                   StoreFullRes(FullResFlags(FullResAddress(a, a.msaaZs.value, x, y), DISABLE_COLOR, lastWrite, last)));
    }
  }

  lemma StoreSize(a: RclArgs, x: byte, y: byte, last: bool)
    ensures Size(ZsOps(a, x, y, last)) <= 10 && Size(ColorOps(a, x, y, last)) <= 4
  {
    hide Size, Set;
    SizeNothing();
    var m := a.msaaColor.Some? || a.msaaZs.Some?;
    if a.zsWrite.Some? {
      var z, lastWrite := a.zsWrite.value, a.colorWrite.None?;
      var address := Wrap(z.bus + z.offset);
      SizeOptional(m, x, y, StoreGeneral(if lastWrite then z.bits else Set(z.bits, DISABLE_COLOR_CLEAR),
                                         if last && lastWrite then Set(address, EOF) else address));
    }
    if a.colorWrite.Some? {
      SizeOptional(m || a.zsWrite.Some?, x, y, if last then StoreMsEof else StoreMs);
    }
  }

  lemma SizeNothing()
    ensures Size([]) == 0
  {
  }

  lemma TileSize(a: RclArgs, x: byte, y: byte, first: bool, last: bool)
    ensures Size(TileOps(a, x, y, first, last)) <= 60
  {
    hide LoadColorOps, LoadZsOps, EnterOps, MsaaColorOps, MsaaZsOps, ZsOps, ColorOps, Size;
    var p1, p2, p3 := LoadColorOps(a, x, y), LoadZsOps(a, x, y), EnterOps(a, x, y, first);
    var p4, p5 := MsaaColorOps(a, x, y, last), MsaaZsOps(a, x, y, last);
    var p6, p7 := ZsOps(a, x, y, last), ColorOps(a, x, y, last);
    SizeAppend(p1 + p2 + p3 + p4 + p5 + p6, p7);
    SizeAppend(p1 + p2 + p3 + p4 + p5, p6);
    SizeAppend(p1 + p2 + p3 + p4, p5);
    SizeAppend(p1 + p2 + p3, p4);
    SizeAppend(p1 + p2, p3);
    SizeAppend(p1, p2);
    LoadSize(a, x, y);
    EnterSize(a, x, y, first);
    MsaaSize(a, x, y, last);
    StoreSize(a, x, y, last);
  }

  lemma {:induction false} RowSize(a: RclArgs, yi: nat, n: nat)
    requires ValidArgs(a) && yi < YTiles(a) && n <= XTiles(a)
    ensures Size(RowOps(a, yi, n)) <= 60 * n
  {
    hide TileOps, TileX, TileY, EncodeOp;
    if n > 0 {
      RowSize(a, yi, n - 1);
      SizeAppend(RowOps(a, yi, n - 1), VisitOps(a, n - 1, yi));
      TileSize(a, TileX(a, n - 1), TileY(a, yi), n == 1 && yi == 0, n == XTiles(a) && yi == YTiles(a) - 1);
    }
  }

  lemma {:induction false} RowsSize(a: RclArgs, m: nat)
    requires ValidArgs(a) && m <= YTiles(a)
    ensures Size(RowsOps(a, m)) <= 60 * (m * XTiles(a))
  {
    hide RowOps;
    if m > 0 {
      RowsSize(a, m - 1);
      SizeAppend(RowsOps(a, m - 1), RowOps(a, m - 1, XTiles(a)));
      RowSize(a, m - 1, XTiles(a));
      assert m * XTiles(a) == (m - 1) * XTiles(a) + XTiles(a);
    }
  }

  /** 35 bytes of header and 60 a tile: the size do_submit_cl allocates is never exceeded. */
  lemma RenderListBound(a: RclArgs)
    requires ValidArgs(a)
    ensures |EncodeOps(RclOps(a))| <= 35 + 60 * (XTiles(a) * YTiles(a))
  {
    hide RowsOps, EncodeOp;
    SizeIsLength(RclOps(a));
    SizeAppend(HeaderOps(a), RowsOps(a, YTiles(a)));
    RowsSize(a, YTiles(a));
    HeaderSize(a);
    assert YTiles(a) * XTiles(a) == XTiles(a) * YTiles(a);
  }

  lemma HeaderSize(a: RclArgs)
    ensures Size(HeaderOps(a)) <= 35
  {
    var config := HeaderOps(a)[|HeaderOps(a)| - 1];
    var c := ClearColors(a.clear0, a.clear1, a.clearZ, a.clearS);
    SizeOne(config);
    SizeOne(c);
    SizeOptional(true, 0, 0, StoreGeneral(0, 0));
    SizeAppend([c], [TileCoords(0, 0)] + [StoreGeneral(0, 0)]);
    if a.useClear {
      assert HeaderOps(a) == ([c] + ([TileCoords(0, 0)] + [StoreGeneral(0, 0)])) + [config];
      SizeAppend([c] + ([TileCoords(0, 0)] + [StoreGeneral(0, 0)]), [config]);
    } else {
      assert HeaderOps(a) == [config];
    }
  }

  // ---- Reading the list back ----

  function Read16(s: seq<byte>, i: nat): u16
    requires i + 2 <= |s|
  {
    (s[i] as int) + 0x100 * (s[i + 1] as int)
  }

  function DecodeOp(s: seq<byte>): Option<RclOp>
    requires s != [] && |s| == PacketSize(s[0])
  {
    var cmd := s[0];
    if cmd == 114 then Some(ClearColors(ReadLe(s, 1), ReadLe(s, 5), ReadLe(s, 9), s[13]))
    else if cmd == 115 then Some(TileCoords(s[1], s[2]))
    else if cmd == 28 then Some(StoreGeneral(Read16(s, 1), ReadLe(s, 3)))
    else if cmd == 29 then Some(LoadGeneral(Read16(s, 1), ReadLe(s, 3)))
    else if cmd == 27 then Some(LoadFullRes(ReadLe(s, 1)))
    else if cmd == 26 then Some(StoreFullRes(ReadLe(s, 1)))
    else if cmd == 113 then Some(RenderConfig(ReadLe(s, 1), Read16(s, 5), Read16(s, 7), Read16(s, 9)))
    else if cmd == 8 then Some(WaitSemaphore)
    else if cmd == 17 then Some(Branch(ReadLe(s, 1)))
    else if cmd == 24 then Some(StoreMs)
    else if cmd == 25 then Some(StoreMsEof)
    else None
  }

  function WalkOps(s: seq<byte>): Option<seq<RclOp>>
    decreases |s|
  {
    if s == [] then Some([])
    else
      var size := PacketSize(s[0]);
      if size == 0 || size > |s| then None
      else
        match DecodeOp(s[..size])
        case None => None
        case Some(op) =>
          match WalkOps(s[size..])
          case None => None
          case Some(rest) => Some([op] + rest)
  }

  lemma DecodeEncodeOp(op: RclOp)
    ensures DecodeOp(EncodeOp(op)) == Some(op)
  {
    if op.StoreGeneral? || op.LoadGeneral? {
    } else if op.ClearColors? {
      ReadThree([114], op.clear0, op.clear1, op.clearZ, [op.clearS]);
    } else if op.RenderConfig? {
      var rest := Le16Bytes(op.width) + Le16Bytes(op.height) + Le16Bytes(op.bits);
      ReadLeAt([113], LeBytes(op.address), rest, op.address);
      assert EncodeOp(op) == [113] + LeBytes(op.address) + rest;
    }
  }

  /** The fields of every packet where the V3D reads them: opcode, little-endian words and halves. */
  lemma OpFields(op: RclOp)
    ensures var s := EncodeOp(op);
            match op
            case ClearColors(c0, c1, z, st) =>
              |s| == 14 && s[0] == 114 && ReadLe(s, 1) == c0 && ReadLe(s, 5) == c1 && ReadLe(s, 9) == z && s[13] == st
            case TileCoords(x, y) => s == [115, x, y]
            case StoreGeneral(bits, address) =>
              |s| == 7 && s[0] == 28 && (s[1] as int) + 0x100 * (s[2] as int) == bits && ReadLe(s, 3) == address
            case LoadGeneral(bits, address) =>
              |s| == 7 && s[0] == 29 && (s[1] as int) + 0x100 * (s[2] as int) == bits && ReadLe(s, 3) == address
            case LoadFullRes(address) => |s| == 5 && s[0] == 27 && ReadLe(s, 1) == address
            case StoreFullRes(address) => |s| == 5 && s[0] == 26 && ReadLe(s, 1) == address
            case RenderConfig(address, width, height, bits) =>
              && |s| == 11 && s[0] == 113 && ReadLe(s, 1) == address
              && (s[5] as int) + 0x100 * (s[6] as int) == width && (s[7] as int) + 0x100 * (s[8] as int) == height
              && (s[9] as int) + 0x100 * (s[10] as int) == bits
            case WaitSemaphore => s == [8]
            case Branch(address) => |s| == 5 && s[0] == 17 && ReadLe(s, 1) == address
            case StoreMs => s == [24]
            case StoreMsEof => s == [25]
  {
    DecodeEncodeOp(op);
    assert EncodeOp(op)[0] == EncodeOp(op)[..1][0];
  }

  lemma EncodeOpsFirst(op: RclOp, ops: seq<RclOp>)
    ensures EncodeOps([op] + ops) == EncodeOp(op) + EncodeOps(ops)
  {
    hide EncodeOp;
    EncodeOpsAppend([op], ops);
    assert [op][..0] == [] && EncodeOps([op]) == [] + EncodeOp(op) == EncodeOp(op);
  }

  /** The V3D, walking by packet size, executes exactly the packets of the specification. */
  lemma {:induction false} WalkEncodeOps(ops: seq<RclOp>)
    ensures WalkOps(EncodeOps(ops)) == Some(ops)
    decreases |ops|
  {
    hide EncodeOp, DecodeOp;
    if ops != [] {
      var op, rest := ops[0], ops[1..];
      WalkEncodeOps(rest);
      assert ops == [op] + rest;
      EncodeOpsFirst(op, rest);
      DecodeEncodeOp(op);
      var s := EncodeOps(ops);
      assert s[..OpSize(op)] == EncodeOp(op) && s[OpSize(op)..] == EncodeOps(rest);
    }
  }

  // ---- The writer ----

  class RclBuilder {
    const data: array<byte>
    const maxSize: nat
    var offset: nat
    /** Everything emitted, stored or not. */
    ghost var bytes: seq<byte>

    ghost predicate Valid()
      reads this, data
    {
      && maxSize <= data.Length && offset == |bytes|
      && (offset <= maxSize ==> data[..offset] == bytes)
    }

    constructor (data: array<byte>, maxSize: nat)
      requires maxSize <= data.Length
      ensures Valid() && bytes == [] && this.data == data && this.maxSize == maxSize
    {
      this.data, this.maxSize, offset, bytes := data, maxSize, 0, [];
    }

    /** rcl_u8: past the end only the offset advances. */
    method U8(val: byte)
      requires Valid()
      modifies this, data
      ensures Valid() && bytes == old(bytes) + [val]
    {
      if offset < maxSize {
        data[offset] := val;
        assert data[..offset] == old(data[..offset]) && data[..offset + 1] == data[..offset] + [val];
      }
      offset, bytes := offset + 1, bytes + [val];
    }

    method U16(val: u16)
      requires Valid()
      modifies this, data
      ensures Valid() && bytes == old(bytes) + Le16Bytes(val)
    {
      var b := Le16Bytes(val);
      if offset + 1 < maxSize {
        data[offset], data[offset + 1] := b[0], b[1];
        assert data[..offset] == old(data[..offset]) && data[..offset + 2] == data[..offset] + b;
      }
      offset, bytes := offset + 2, bytes + b;
    }

    method U32(val: u32)
      requires Valid()
      modifies this, data
      ensures Valid() && bytes == old(bytes) + LeBytes(val)
    {
      hide Splice;
      if offset + 3 < maxSize {
        ghost var was := data[..];
        PutLe(data, offset, val);
        SplicePrefix(was, offset, LeBytes(val));
        assert data[..offset + 4] == data[..][..offset + 4] && was[..offset] == old(data[..offset]);
      }
      offset, bytes := offset + 4, bytes + LeBytes(val);
    }

    /** Account for one whole packet. */
    ghost predicate Wrote(ops: seq<RclOp>)
      reads this
    {
      bytes == EncodeOps(ops)
    }

    method Coords(x: byte, y: byte, ghost ops: seq<RclOp>)
      requires Valid() && Wrote(ops)
      modifies this, data
      ensures Valid() && Wrote(ops + [TileCoords(x, y)])
    {
      U8(115);
      U8(x);
      U8(y);
      EncodeSnoc(ops, TileCoords(x, y));
      assert bytes == EncodeOps(ops) + [115, x, y];
    }

    /** STORE_TILE_BUFFER_GENERAL (28) and LOAD_TILE_BUFFER_GENERAL (29). */
    method General(op: RclOp, ghost ops: seq<RclOp>)
      requires Valid() && Wrote(ops) && (op.StoreGeneral? || op.LoadGeneral?)
      modifies this, data
      ensures Valid() && Wrote(ops + [op])
    {
      var cmd := if op.StoreGeneral? then 28 else 29;
      U8(cmd);
      U16(op.bits);
      U32(op.address);
      EncodeSnoc(ops, op);
      Assoc(EncodeOps(ops), [cmd], Le16Bytes(op.bits));
      Assoc(EncodeOps(ops), [cmd] + Le16Bytes(op.bits), LeBytes(op.address));
    }

    /** Packets made of an opcode and one address. */
    method Address(op: RclOp, ghost ops: seq<RclOp>)
      requires Valid() && Wrote(ops) && (op.StoreFullRes? || op.LoadFullRes? || op.Branch?)
      modifies this, data
      ensures Valid() && Wrote(ops + [op])
    {
      var cmd := if op.StoreFullRes? then 26 else if op.LoadFullRes? then 27 else 17;
      U8(cmd);
      U32(op.address);
      EncodeSnoc(ops, op);
      Assoc(EncodeOps(ops), [cmd], LeBytes(op.address));
    }

    method Bare(op: RclOp, ghost ops: seq<RclOp>)
      requires Valid() && Wrote(ops) && (op.WaitSemaphore? || op.StoreMs? || op.StoreMsEof?)
      modifies this, data
      ensures Valid() && Wrote(ops + [op])
    {
      U8(if op.WaitSemaphore? then 8 else if op.StoreMs? then 24 else 25);
      EncodeSnoc(ops, op);
    }

    method Config(op: RclOp, ghost ops: seq<RclOp>)
      requires Valid() && Wrote(ops) && op.RenderConfig?
      modifies this, data
      ensures Valid() && Wrote(ops + [op])
    {
      hide EncodeOps, EncodeOp, LeBytes, Le16Bytes, Valid;
      U8(113);
      U32(op.address);
      U16(op.width);
      U16(op.height);
      U16(op.bits);
      ConfigBytes(EncodeOps(ops), op);
      EncodeSnoc(ops, op);
    }

    method Clear(op: RclOp, ghost ops: seq<RclOp>)
      requires Valid() && Wrote(ops) && op.ClearColors?
      modifies this, data
      ensures Valid() && Wrote(ops + [op])
    {
      hide EncodeOps, EncodeOp, LeBytes, Valid;
      U8(114);
      U32(op.clear0);
      U32(op.clear1);
      U32(op.clearZ);
      U8(op.clearS);
      ClearBytes(EncodeOps(ops), op);
      EncodeSnoc(ops, op);
    }
  }

  lemma ConfigBytes(base: seq<byte>, op: RclOp)
    requires op.RenderConfig?
    ensures base + [113] + LeBytes(op.address) + Le16Bytes(op.width) + Le16Bytes(op.height) + Le16Bytes(op.bits)
         == base + EncodeOp(op)
  {
    hide LeBytes, Le16Bytes;
  }

  lemma ClearBytes(base: seq<byte>, op: RclOp)
    requires op.ClearColors?
    ensures base + [114] + LeBytes(op.clear0) + LeBytes(op.clear1) + LeBytes(op.clearZ) + [op.clearS]
              == base + EncodeOp(op)
  {
    hide LeBytes;
  }

  lemma EncodeSnoc(ops: seq<RclOp>, op: RclOp)
    ensures EncodeOps(ops + [op]) == EncodeOps(ops) + EncodeOp(op)
  {
    hide EncodeOp;
    assert (ops + [op])[..|ops|] == ops;
  }
}
