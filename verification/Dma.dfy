/** 2D transfers of the BCM2835 DMA engine: what the control blocks ask for, and what the engine then does. */
module Dma {
  import opened Bytes

  const MAX_XLEN: nat := 0xFFFF
  const MAX_YLEN: nat := 0x3FFF
  const MAX_STRIDE: int := 0x7FFF
  const BOUNCE_SIZE: nat := 65536
  /** The engine reaches the first gigabyte. */
  const REACH: nat := 0x4000_0000

  datatype ControlBlock = ControlBlock(source: u32, dest: u32, txfrLen: u32, stride: u32)

  // ---- Field encodings ----

  /** TXFR_LEN in 2D mode: rows less one in the high half, bytes of a row in the low half. */
  function TxfrLen2D(xlen: u32, rowsLessOne: u32): u32 {
    if xlen < 0x1_0000 then Wrap(rowsLessOne * 0x1_0000 + xlen)
    else Wrap(rowsLessOne * 0x1_0000) / 0x2_0000 * 0x2_0000 + 0x1_0000 + xlen % 0x1_0000
  }

  /** A 16-bit field holding a signed stride. */
  function Field16(v: int): u32 {
    v % 0x1_0000
  }

  function Signed16(f: u32): int {
    if f % 0x1_0000 < 0x8000 then f % 0x1_0000 else f % 0x1_0000 - 0x1_0000
  }

  /** STRIDE: destination in the high half, source in the low half. */
  function Stride2D(source: int, dest: int): u32 {
    Wrap(Field16(dest) * 0x1_0000 + Field16(source))
  }

  function XLength(cb: ControlBlock): nat {
    cb.txfrLen % 0x1_0000
  }

  /** Rows are YLENGTH + 1; YLENGTH has 14 bits. */
  function Rows(cb: ControlBlock): nat {
    cb.txfrLen / 0x1_0000 % 0x4000 + 1
  }

  function SourceStride(cb: ControlBlock): int {
    Signed16(cb.stride)
  }

  function DestStride(cb: ControlBlock): int {
    Signed16(cb.stride / 0x1_0000)
  }

  /** Strides within the signed 16-bit limit and lengths within theirs come out of the control block unchanged. */
  lemma EncodingExact(src: u32, dst: u32, w: nat, h: nat, ss: int, ds: int)
    requires 0 < w <= MAX_XLEN && 0 < h <= MAX_YLEN + 1
    requires -MAX_STRIDE <= ss <= MAX_STRIDE && -MAX_STRIDE <= ds <= MAX_STRIDE
    ensures var cb := ControlBlock(src, dst, TxfrLen2D(w, h - 1), Stride2D(ss, ds));
            XLength(cb) == w && Rows(cb) == h && SourceStride(cb) == ss && DestStride(cb) == ds
  {
    StrideExact(ss, ds);
  }

  lemma StrideExact(ss: int, ds: int)
    requires -MAX_STRIDE <= ss <= MAX_STRIDE && -MAX_STRIDE <= ds <= MAX_STRIDE
    ensures Signed16(Stride2D(ss, ds)) == ss && Signed16(Stride2D(ss, ds) / 0x1_0000) == ds
  {
    var lo, hi := Field16(ss), Field16(ds);
    assert (hi * 0x1_0000 + lo) / 0x1_0000 == hi && (hi * 0x1_0000 + lo) % 0x1_0000 == lo;
    FieldSigned(ss);
    FieldSigned(ds);
  }

  lemma FieldSigned(v: int)
    requires -0x8000 <= v < 0x8000
    ensures Signed16(Field16(v)) == v
  {
    if v >= 0 {
      assert Field16(v) == v;
    } else {
      assert Field16(v) == v + 0x1_0000;
    }
  }

  /** A single row of at most a bounce buffer is transferred as asked exactly when its length fits 16 bits. */
  lemma OneRowExactly(w: nat)
    requires 0 < w <= BOUNCE_SIZE
    ensures var cb := ControlBlock(0, 0, TxfrLen2D(w, 0), 0);
            XLength(cb) == w && Rows(cb) == 1 <==> w <= MAX_XLEN
  {
  }

  // ---- The engine ----

  /** One row, in address order. */
  function CopyRow(mem: seq<byte>, src: nat, dst: nat, n: nat): (r: seq<byte>)
    requires src + n <= |mem| && dst + n <= |mem|
    ensures |r| == |mem|
  {
    if n == 0 then mem
    else
      var r := CopyRow(mem, src, dst, n - 1);
      r[dst + n - 1 := r[src + n - 1]]
  }

  /** Row by row, the addresses moved by a row and a stride in between; it stops at the end of memory. */
  function Engine(mem: seq<byte>, src: int, dst: int, w: nat, rows: nat, sStep: int, dStep: int): (r: seq<byte>)
    ensures |r| == |mem|
    decreases rows
  {
    if rows == 0 || src < 0 || dst < 0 || src + w > |mem| || dst + w > |mem| then mem
    else Engine(CopyRow(mem, src, dst, w), src + sStep, dst + dStep, w, rows - 1, sStep, dStep)
  }

  /** The engine's run of one control block. */
  function Transfer(mem: seq<byte>, cb: ControlBlock): (r: seq<byte>)
    ensures |r| == |mem|
  {
    var w := XLength(cb);
    Engine(mem, cb.source, cb.dest, w, Rows(cb), w + SourceStride(cb), w + DestStride(cb))
  }

  lemma {:induction false} RowCopied(mem: seq<byte>, src: nat, dst: nat, n: nat, i: nat)
    requires src + n <= |mem| && dst + n <= |mem| && (src + n <= dst || dst + n <= src) && i < |mem|
    ensures CopyRow(mem, src, dst, n)[i] == if dst <= i < dst + n then mem[src + (i - dst)] else mem[i]
  {
    if n > 0 {
      RowCopied(mem, src, dst, n - 1, i);
      RowCopied(mem, src, dst, n - 1, src + n - 1);
    }
  }

  // ---- Rectangles ----

  /** Byte i lies in the first h rows of a rectangle. */
  predicate InRows(i: nat, at: nat, pitch: nat, w: nat, h: nat) {
    h > 0 && (at + (h - 1) * pitch <= i < at + (h - 1) * pitch + w || InRows(i, at, pitch, w, h - 1))
  }

  lemma OneMoreRow(h: nat, pitch: nat)
    requires h > 0
    ensures h * pitch == (h - 1) * pitch + pitch && (h - 1) * pitch >= 0
  {
  }

  lemma {:induction false} RowsBound(i: nat, at: nat, pitch: nat, w: nat, h: nat)
    requires InRows(i, at, pitch, w, h) && w <= pitch
    ensures at <= i < at + h * pitch
  {
    OneMoreRow(h, pitch);
    if !(at + (h - 1) * pitch <= i < at + (h - 1) * pitch + w) {
      RowsBound(i, at, pitch, w, h - 1);
    }
  }

  /** Row r, column c. */
  lemma {:induction false} RowColumn(at: nat, pitch: nat, w: nat, h: nat, r: nat, c: nat)
    requires r < h && c < w
    ensures InRows(at + r * pitch + c, at, pitch, w, h)
  {
    if r < h - 1 {
      RowColumn(at, pitch, w, h - 1, r, c);
    }
  }

  // ---- Bottom-up copies ----

  /** Rows no wider than the pitch, in memory at both ends, the destination at least one row below the source. */
  predicate Below(mem: seq<byte>, src: nat, dst: nat, pitch: nat, w: nat, h: nat) {
    && 0 < w <= pitch && 0 < h && src + pitch <= dst && dst + (h - 1) * pitch + w <= |mem|
  }

  lemma LastRow(mem: seq<byte>, src: nat, dst: nat, pitch: nat, w: nat, h: nat)
    requires Below(mem, src, dst, pitch, w, h)
    ensures var off := (h - 1) * pitch;
            && off >= 0 && src + off + w <= dst + off && dst + off + w <= |mem|
            && (h > 1 ==> off - pitch == (h - 2) * pitch)
            && (h > 1 ==> Below(CopyRow(mem, src + off, dst + off, w), src, dst, pitch, w, h - 1))
  {
    hide CopyRow;
    OneMoreRow(h, pitch);
    if h > 1 {
      OneMoreRow(h - 1, pitch);
    }
  }

  /**
   * The bottom-up copy leaves the destination rectangle equal to what the
   * source rectangle was, and every byte outside it as it was, although the
   * rectangles may overlap.
   */
  lemma {:induction false} BottomUpCopies(mem: seq<byte>, src: nat, dst: nat, pitch: nat, w: nat, h: nat, i: nat)
    requires Below(mem, src, dst, pitch, w, h) && i < |mem|
    ensures InRows(i, dst, pitch, w, h) ==> dst <= i
    ensures Engine(mem, src + (h - 1) * pitch, dst + (h - 1) * pitch, w, h, -(pitch as int), -(pitch as int))[i]
         == if InRows(i, dst, pitch, w, h) then mem[i - dst + src] else mem[i]
    decreases h
  {
    hide CopyRow, InRows, Engine;
    var off := (h - 1) * pitch;
    LastRow(mem, src, dst, pitch, w, h);
    var m := CopyRow(mem, src + off, dst + off, w);
    RowCopied(mem, src + off, dst + off, w, i);
    EngineStep(mem, src + off, dst + off, w, h, -(pitch as int), -(pitch as int));
    InRowsStep(i, dst, pitch, w, h);
    if InRows(i, dst, pitch, w, h) {
      RowsBound(i, dst, pitch, w, h);
    }
    if h > 1 {
      BottomUpCopies(m, src, dst, pitch, w, h - 1, i);
      if InRows(i, dst, pitch, w, h - 1) {
        RowsBound(i, dst, pitch, w, h - 1);
        RowCopied(mem, src + off, dst + off, w, i - dst + src);
      }
    } else {
      EngineNothing(m, src + off - pitch, dst + off - pitch, w, -(pitch as int), -(pitch as int));
      InRowsNothing(i, dst, pitch, w);
    }
  }

  lemma EngineStep(mem: seq<byte>, src: nat, dst: nat, w: nat, rows: nat, sStep: int, dStep: int)
    requires rows > 0 && src + w <= |mem| && dst + w <= |mem|
    ensures Engine(mem, src, dst, w, rows, sStep, dStep)
         == Engine(CopyRow(mem, src, dst, w), src + sStep, dst + dStep, w, rows - 1, sStep, dStep)
  {
    hide CopyRow;
  }

  lemma EngineNothing(mem: seq<byte>, src: int, dst: int, w: nat, sStep: int, dStep: int)
    ensures Engine(mem, src, dst, w, 0, sStep, dStep) == mem
  {
  }

  lemma InRowsStep(i: nat, at: nat, pitch: nat, w: nat, h: nat)
    requires h > 0
    ensures InRows(i, at, pitch, w, h) <==>
            at + (h - 1) * pitch <= i < at + (h - 1) * pitch + w || InRows(i, at, pitch, w, h - 1)
  {
  }

  lemma InRowsNothing(i: nat, at: nat, pitch: nat, w: nat)
    ensures !InRows(i, at, pitch, w, 0)
  {
  }

  // ---- vc4_dma_copy ----

  predicate Addressable(phys: u32, bytes: u32) {
    phys < REACH && Wrap(phys + bytes) < REACH
  }

  /** The conversion of a ULONG to a LONG. */
  function Long(x: u32): int {
    if x < 0x8000_0000 then x else x - 0x1_0000_0000
  }

  predicate StrideFits(s: int) {
    -MAX_STRIDE <= s <= MAX_STRIDE
  }

  /** The control block of a copy; None where vc4_dma_copy declines and the caller falls back. */
  function CopyBlock(src: u32, srcPitch: u32, dst: u32, dstPitch: u32, w: u32, h: u32, bottomUp: bool)
    : Option<ControlBlock>
  {
    if w == 0 || h == 0 || w > MAX_XLEN || h - 1 > MAX_YLEN then None
    else
      var s, d := Wrap((h - 1) * srcPitch), Wrap((h - 1) * dstPitch);
      if !Addressable(src, Wrap(s + w)) || !Addressable(dst, Wrap(d + w)) then None
      else
        var ss := if bottomUp then -Long(Wrap(srcPitch + w)) else Long(Wrap(srcPitch - w));
        var ds := if bottomUp then -Long(Wrap(dstPitch + w)) else Long(Wrap(dstPitch - w));
        if !StrideFits(ss) || !StrideFits(ds) then None
        else
          Some(ControlBlock(if bottomUp then Wrap(src + s) else src, if bottomUp then Wrap(dst + d) else dst,
                            TxfrLen2D(w, h - 1), Stride2D(ss, ds)))
  }

  method BuildCopy(src: u32, srcPitch: u32, dst: u32, dstPitch: u32, w: u32, h: u32, bottomUp: bool)
    returns (ok: bool, cb: ControlBlock)
    ensures ok == CopyBlock(src, srcPitch, dst, dstPitch, w, h, bottomUp).Some?
    ensures ok ==> CopyBlock(src, srcPitch, dst, dstPitch, w, h, bottomUp) == Some(cb)
  {
    hide TxfrLen2D, Stride2D, Wrap, Long;
    cb := ControlBlock(0, 0, 0, 0);
    if w == 0 || h == 0 || w > MAX_XLEN || h - 1 > MAX_YLEN {
      return false, cb;
    }
    var s, d := Wrap((h - 1) * srcPitch), Wrap((h - 1) * dstPitch);
    if !Addressable(src, Wrap(s + w)) || !Addressable(dst, Wrap(d + w)) {
      return false, cb;
    }
    var from, to := src, dst;
    var ss, ds := Long(Wrap(srcPitch - w)), Long(Wrap(dstPitch - w));
    if bottomUp {
      from, to := Wrap(src + s), Wrap(dst + d);
      ss, ds := -Long(Wrap(srcPitch + w)), -Long(Wrap(dstPitch + w));
    }
    if !StrideFits(ss) || !StrideFits(ds) {
      return false, cb;
    }
    ok, cb := true, ControlBlock(from, to, TxfrLen2D(w, h - 1), Stride2D(ss, ds));
  }

  lemma WrapPlain(x: nat)
    requires x < 0x1_0000_0000
    ensures Wrap(x) == x && (x < 0x8000_0000 ==> Long(Wrap(x)) == x)
  {
  }

  /** In the range of its checks the arithmetic of the copy does not wrap. */
  lemma BottomUpBlock(src: u32, dst: u32, pitch: u32, w: u32, h: u32)
    requires CopyBlock(src, pitch, dst, pitch, w, h, true).Some? && w <= pitch && pitch < REACH
    requires src + (h - 1) * pitch + w < REACH && dst + (h - 1) * pitch + w < REACH
    ensures var cb := CopyBlock(src, pitch, dst, pitch, w, h, true).value;
            && (h - 1) * pitch >= 0 && cb.source == src + (h - 1) * pitch && cb.dest == dst + (h - 1) * pitch
            && XLength(cb) == w && Rows(cb) == h
            && w + SourceStride(cb) == -(pitch as int) && w + DestStride(cb) == -(pitch as int)
  {
    hide TxfrLen2D, Stride2D, XLength, Rows, SourceStride, DestStride, Wrap, Long, Addressable;
    OneMoreRow(h, pitch);
    var off := (h - 1) * pitch;
    WrapPlain(off);
    WrapPlain(src + off);
    WrapPlain(dst + off);
    WrapPlain(pitch + w);
    var ss := -((pitch + w) as int);
    EncodingExact(src + off, dst + off, w, h, ss, ss);
  }

  /**
   * vc4_dma_copy bottom-up, for rectangles of equal pitch with the destination
   * at least one row below: what it asks the engine for is the copy.
   */
  lemma CopyCopies(mem: seq<byte>, src: u32, dst: u32, pitch: u32, w: u32, h: u32, i: nat)
    requires CopyBlock(src, pitch, dst, pitch, w, h, true).Some?
    requires Below(mem, src, dst, pitch, w, h) && |mem| < REACH && i < |mem|
    ensures InRows(i, dst, pitch, w, h) ==> dst <= i
    ensures Transfer(mem, CopyBlock(src, pitch, dst, pitch, w, h, true).value)[i]
         == if InRows(i, dst, pitch, w, h) then mem[i - dst + src] else mem[i]
  {
    hide CopyBlock, InRows, Engine, XLength, Rows, SourceStride, DestStride;
    OneMoreRow(h, pitch);
    BottomUpBlock(src, dst, pitch, w, h);
    BottomUpCopies(mem, src, dst, pitch, w, h, i);
  }
}
