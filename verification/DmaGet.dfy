/** vc4_dma_get: a rectangle read through the bounce buffer, chunk by chunk. */
module DmaGet {
  import opened Bytes
  import opened Dma

  /** Row r of a rectangle. */
  function Row(s: seq<byte>, at: nat, pitch: nat, w: nat, r: nat): seq<byte>
  {
    if at + r * pitch + w <= |s| then s[at + r * pitch..at + r * pitch + w] else []
  }

  predicate RowSame(s: seq<byte>, at: nat, modulo: nat, t: seq<byte>, src: nat, pitch: nat, w: nat, r: nat) {
    Row(s, at, modulo, w, r) == Row(t, src, pitch, w, r)
  }

  // ---- One chunk ----

  /** Source rows in memory and clear of the bytes [lo, hi) the engine writes. */
  predicate Clear(size: nat, src: nat, pitch: nat, w: nat, n: nat, lo: nat, hi: nat) {
    && 0 < w <= pitch && lo <= hi <= size
    && (n > 0 ==> src + (n - 1) * pitch + w <= size && (src >= hi || src + (n - 1) * pitch + w <= lo))
  }

  lemma ClearTail(size: nat, src: nat, pitch: nat, w: nat, n: nat, lo: nat, hi: nat)
    requires n > 0 && Clear(size, src, pitch, w, n, lo, hi)
    ensures src + w <= size && (src >= hi || src + w <= lo) && Clear(size, src + pitch, pitch, w, n - 1, lo, hi)
  {
    OneMoreRow(n, pitch);
    if n > 1 {
      OneMoreRow(n - 1, pitch);
    }
  }

  /** Rows packed one behind the other at dst. */
  lemma {:induction false} PackedOutside(mem: seq<byte>, src: nat, dst: nat, w: nat, n: nat, pitch: nat, lo: nat,
                                         hi: nat, i: nat)
    requires Clear(|mem|, src, pitch, w, n, lo, hi) && lo <= dst && dst + n * w <= hi
    requires i < |mem| && (i < dst || dst + n * w <= i)
    ensures Engine(mem, src, dst, w, n, pitch, w)[i] == mem[i]
    decreases n
  {
    hide CopyRow, Engine, Clear;
    if n == 0 {
      EngineNothing(mem, src, dst, w, pitch, w);
    } else {
      OneMoreRow(n, w);
      ClearTail(|mem|, src, pitch, w, n, lo, hi);
      EngineStep(mem, src, dst, w, n, pitch, w);
      RowCopied(mem, src, dst, w, i);
      PackedOutside(CopyRow(mem, src, dst, w), src + pitch, dst + w, w, n - 1, pitch, lo, hi, i);
    }
  }

  lemma {:induction false} PackedRow(mem: seq<byte>, src: nat, dst: nat, w: nat, n: nat, pitch: nat, lo: nat, hi: nat,
                                     r: nat, c: nat)
    requires Clear(|mem|, src, pitch, w, n, lo, hi) && lo <= dst && dst + n * w <= hi && r < n && c < w
    ensures dst + r * w + c < |mem| && src + r * pitch + c < |mem|
    ensures Engine(mem, src, dst, w, n, pitch, w)[dst + r * w + c] == mem[src + r * pitch + c]
    decreases n
  {
    hide CopyRow, Engine, Clear;
    OneMoreRow(n, w);
    ClearTail(|mem|, src, pitch, w, n, lo, hi);
    EngineStep(mem, src, dst, w, n, pitch, w);
    var m := CopyRow(mem, src, dst, w);
    if r == 0 {
      RowCopied(mem, src, dst, w, dst + c);
      PackedOutside(m, src + pitch, dst + w, w, n - 1, pitch, lo, hi, dst + c);
    } else {
      OneMoreRow(r, w);
      OneMoreRow(r, pitch);
      PackedRow(m, src + pitch, dst + w, w, n - 1, pitch, lo, hi, r - 1, c);
      var i := src + r * pitch + c;
      SourceUntouched(mem, src, pitch, w, n, lo, hi, r, c);
      RowCopied(mem, src, dst, w, i);
    }
  }

  lemma SourceUntouched(mem: seq<byte>, src: nat, pitch: nat, w: nat, n: nat, lo: nat, hi: nat, r: nat, c: nat)
    requires Clear(|mem|, src, pitch, w, n, lo, hi) && r < n && c < w
    ensures src + r * pitch + c < |mem| && (src + r * pitch + c >= hi || src + r * pitch + c < lo)
  {
    Times(r, n - 1, pitch);
  }

  lemma Times(a: nat, b: nat, n: nat)
    requires a <= b
    ensures 0 <= a * n <= b * n
  {
    assert b * n - a * n == (b - a) * n;
  }

  lemma SameBytes(s: seq<byte>, a: nat, t: seq<byte>, b: nat, n: nat)
    requires a + n <= |s| && b + n <= |t|
    requires forall i :: a <= i < a + n ==> s[i] == t[i - a + b]
    ensures s[a..a + n] == t[b..b + n]
  {
  }

  lemma ChunkBounds(size: nat, src: nat, bounce: nat, w: nat, n: nat, pitch: nat, r: nat)
    requires Clear(size, src, pitch, w, n, bounce, bounce + BOUNCE_SIZE) && n * w <= BOUNCE_SIZE && r < n
    ensures bounce + r * w + w <= size && src + r * pitch + w <= size
  {
    OneMoreRow(r + 1, w);
    Times(r + 1, n, w);
    Times(r, n - 1, pitch);
  }

  /** Row r of the chunk, as the bounce buffer holds it. */
  lemma ChunkRow(mem: seq<byte>, src: nat, bounce: nat, w: nat, n: nat, pitch: nat, r: nat)
    requires Clear(|mem|, src, pitch, w, n, bounce, bounce + BOUNCE_SIZE) && n * w <= BOUNCE_SIZE && r < n
    ensures var m := Engine(mem, src, bounce, w, n, pitch, w);
            Row(m, bounce, w, w, r) == Row(mem, src, pitch, w, r) && |Row(mem, src, pitch, w, r)| == w
  {
    hide Engine, Clear;
    var m := Engine(mem, src, bounce, w, n, pitch, w);
    ChunkBounds(|mem|, src, bounce, w, n, pitch, r);
    var a, b := bounce + r * w, src + r * pitch;
    forall i | a <= i < a + w
      ensures m[i] == mem[i - a + b]
    {
      PackedRow(mem, src, bounce, w, n, pitch, bounce, bounce + BOUNCE_SIZE, r, i - a);
    }
    SameBytes(m, a, mem, b, w);
  }

  // ---- Copying out ----

  /** Writing row y leaves the other rows, and everything outside the rectangle, alone. */
  lemma RowWritten(s: seq<byte>, at: nat, modulo: nat, w: nat, h: nat, y: nat, b: seq<byte>)
    requires |b| == w <= modulo && y < h && at + (h - 1) * modulo + w <= |s|
    ensures at + y * modulo + w <= |s|
    ensures Row(Splice(s, at + y * modulo, b), at, modulo, w, y) == b
    ensures forall r: nat :: r < h && r != y ==>
              Row(Splice(s, at + y * modulo, b), at, modulo, w, r) == Row(s, at, modulo, w, r)
    ensures forall i :: 0 <= i < |s| && !InRows(i, at, modulo, w, h) ==> Splice(s, at + y * modulo, b)[i] == s[i]
  {
    hide InRows;
    Times(y, h - 1, modulo);
    SplicePrefix(s, at + y * modulo, b);
    forall r: nat | r < h && r != y
      ensures Row(Splice(s, at + y * modulo, b), at, modulo, w, r) == Row(s, at, modulo, w, r)
    {
      OtherRow(s, at, modulo, w, h, y, r, b);
    }
    forall i | 0 <= i < |s| && !InRows(i, at, modulo, w, h)
      ensures Splice(s, at + y * modulo, b)[i] == s[i]
    {
      if at + y * modulo <= i < at + y * modulo + w {
        RowColumn(at, modulo, w, h, y, i - at - y * modulo);
      }
    }
  }

  lemma OtherRow(s: seq<byte>, at: nat, modulo: nat, w: nat, h: nat, y: nat, r: nat, b: seq<byte>)
    requires |b| == w <= modulo && y < h && r < h && r != y && at + (h - 1) * modulo + w <= |s|
    requires at + y * modulo + w <= |s|
    ensures Row(Splice(s, at + y * modulo, b), at, modulo, w, r) == Row(s, at, modulo, w, r)
  {
    Times(r, h - 1, modulo);
    if r < y {
      OneMoreRow(r + 1, modulo);
      Times(r + 1, y, modulo);
    } else {
      OneMoreRow(y + 1, modulo);
      Times(y + 1, r, modulo);
    }
    SameBytes(Splice(s, at + y * modulo, b), at + r * modulo, s, at + r * modulo, w);
  }

  predicate Copied(s: seq<byte>, was: seq<byte>, at: nat, modulo: nat, mem: seq<byte>, src: nat, pitch: nat, w: nat,
                   h: nat, n: nat) {
    && |s| == |was|
    && (forall r: nat :: r < n ==> RowSame(s, at, modulo, mem, src, pitch, w, r))
    && (forall i :: 0 <= i < |s| && !InRows(i, at, modulo, w, h) ==> s[i] == was[i])
  }

  lemma RowDone(s: seq<byte>, was: seq<byte>, at: nat, modulo: nat, mem: seq<byte>, src: nat, pitch: nat, w: nat,
                h: nat, y: nat)
    requires Copied(s, was, at, modulo, mem, src, pitch, w, h, y) && y < h && w <= modulo
    requires at + (h - 1) * modulo + w <= |s| && |Row(mem, src, pitch, w, y)| == w
    ensures at + y * modulo + w <= |s|
    ensures Copied(Splice(s, at + y * modulo, Row(mem, src, pitch, w, y)), was, at, modulo, mem, src, pitch, w, h,
              y + 1)
  {
    hide Row, Splice, InRows;
    var b := Row(mem, src, pitch, w, y);
    RowWritten(s, at, modulo, w, h, y, b);
    var t := Splice(s, at + y * modulo, b);
    forall r: nat | r < y + 1
      ensures RowSame(t, at, modulo, mem, src, pitch, w, r)
    {
      if r < y {
        assert RowSame(s, at, modulo, mem, src, pitch, w, r);
      }
    }
  }

  // ---- The call ----

  /** A rectangle to read: in the first gigabyte, clear of the bounce buffer. */
  predicate Readable(mem: seq<byte>, src: nat, pitch: nat, w: nat, h: nat, bounce: nat) {
    |mem| < REACH && h > 0 && Clear(|mem|, src, pitch, w, h, bounce, bounce + BOUNCE_SIZE)
  }

  lemma ChunkReadable(mem: seq<byte>, src: nat, pitch: nat, w: nat, h: nat, bounce: nat, done: nat, n: nat)
    requires Readable(mem, src, pitch, w, h, bounce) && 0 < n && done + n <= h
    ensures Clear(|mem|, src + done * pitch, pitch, w, n, bounce, bounce + BOUNCE_SIZE)
    ensures src + done * pitch < REACH && bounce < REACH
  {
    Times(done, h - 1, pitch);
    Times(done + n - 1, h - 1, pitch);
    assert (done + n - 1) * pitch == done * pitch + (n - 1) * pitch;
    Times(0, n - 1, pitch);
  }

  /** The control block of a chunk does what the chunk needs. */
  lemma ChunkBlock(src: u32, bounce: u32, pitch: nat, w: nat, n: nat)
    requires 0 < w <= MAX_XLEN && w <= pitch && pitch - w <= MAX_STRIDE && 0 < n <= MAX_YLEN
    ensures var cb := ControlBlock(src, bounce, TxfrLen2D(w, n - 1), Stride2D(pitch - w, 0));
            forall m: seq<byte> {:trigger Transfer(m, cb)} :: Transfer(m, cb) == Engine(m, src, bounce, w, n, pitch, w)
  {
    EncodingExact(src, bounce, w, n, pitch - w, 0);
  }

  /** Rows a bounce buffer takes, at most what YLENGTH counts. */
  function RowsPerChunk(w: nat): (n: nat)
    requires 0 < w <= BOUNCE_SIZE
    ensures 1 <= n <= MAX_YLEN && n * w <= BOUNCE_SIZE
  {
    if BOUNCE_SIZE / w > MAX_YLEN then MAX_YLEN else BOUNCE_SIZE / w
  }

  /** Copy the rows of one chunk out of the bounce buffer. */
  method CopyOut(bounced: seq<byte>, bounce: nat, w: nat, n: nat, dst: array<byte>, at: nat, modulo: nat, done: nat,
                 ghost mem: seq<byte>, ghost was: seq<byte>, ghost src: nat, ghost pitch: nat, ghost h: nat)
    requires 0 < w <= modulo && 0 < n && done + n <= h && at + (h - 1) * modulo + w <= dst.Length
    requires bounce + n * w <= |bounced|
    requires forall r: nat :: r < n ==> RowArrived(bounced, bounce, w, mem, src, pitch, done, r)
    requires Copied(dst[..], was, at, modulo, mem, src, pitch, w, h, done)
    modifies dst
    ensures Copied(dst[..], was, at, modulo, mem, src, pitch, w, h, done + n)
  {
    hide Copied, Row, Splice;
    var y := 0;
    while y < n
      invariant 0 <= y <= n && Copied(dst[..], was, at, modulo, mem, src, pitch, w, h, done + y)
    {
      assert RowArrived(bounced, bounce, w, mem, src, pitch, done, y);
      RowDone(dst[..], was, at, modulo, mem, src, pitch, w, h, done + y);
      BounceSlice(bounced, bounce, w, n, y);
      CopyMem(bounced[bounce + y * w..bounce + y * w + w], dst, at + (done + y) * modulo);
      y := y + 1;
    }
  }

  /** Row r of a chunk in the bounce buffer is row done + r of the source. */
  predicate RowArrived(bounced: seq<byte>, bounce: nat, w: nat, mem: seq<byte>, src: nat, pitch: nat, done: nat,
                       r: nat) {
    Row(bounced, bounce, w, w, r) == Row(mem, src, pitch, w, done + r) && |Row(mem, src, pitch, w, done + r)| == w
  }

  lemma BounceSlice(bounced: seq<byte>, bounce: nat, w: nat, n: nat, y: nat)
    requires bounce + n * w <= |bounced| && y < n
    ensures bounce + y * w + w <= |bounced|
    ensures bounced[bounce + y * w..bounce + y * w + w] == Row(bounced, bounce, w, w, y)
  {
    OneMoreRow(y + 1, w);
    Times(y + 1, n, w);
  }

  lemma ChunkArrived(mem: seq<byte>, src: nat, pitch: nat, w: nat, from: nat, bounce: nat, done: nat, n: nat, r: nat)
    requires Clear(|mem|, from, pitch, w, n, bounce, bounce + BOUNCE_SIZE) && n * w <= BOUNCE_SIZE && r < n
    requires from == src + done * pitch
    ensures RowArrived(Engine(mem, from, bounce, w, n, pitch, w), bounce, w, mem, src, pitch, done, r)
  {
    hide Engine, Clear;
    ChunkRow(mem, from, bounce, w, n, pitch, r);
  }

  /** Where the rows come from: a row of 65536 bytes has no length field, and the bounce buffer is read as it was. */
  function Origin(w: nat, src: nat, bounce: nat): nat {
    if w <= MAX_XLEN then src else bounce
  }

  function Step(w: nat, pitch: nat): nat {
    if w <= MAX_XLEN then pitch else 0
  }

  lemma {:induction false} EmptyRows(mem: seq<byte>, src: int, dst: int, rows: nat, sStep: int, dStep: int)
    ensures Engine(mem, src, dst, 0, rows, sStep, dStep) == mem
    decreases rows
  {
    if rows > 0 {
      EmptyRows(mem, src + sStep, dst + dStep, rows - 1, sStep, dStep);
    }
  }

  /** A row of 65536 bytes moves nothing, and row r of the chunk is the bounce buffer. */
  lemma WideArrived(mem: seq<byte>, cb: ControlBlock, bounce: nat, w: nat, done: nat, r: nat)
    requires w == BOUNCE_SIZE && r == 0 && cb.txfrLen == TxfrLen2D(w, 0) && bounce + w <= |mem|
    ensures Transfer(mem, cb) == mem && RowArrived(mem, bounce, w, mem, bounce, 0, done, r)
  {
    assert XLength(cb) == 0;
    EmptyRows(mem, cb.source, cb.dest, Rows(cb), SourceStride(cb), DestStride(cb));
  }

  lemma FewerRows(n: nat, m: nat, w: nat)
    requires n <= m
    ensures n * w <= m * w
  {
    assert m * w - n * w == (m - n) * w;
  }

  lemma ReadableWidth(mem: seq<byte>, src: nat, pitch: nat, w: nat, h: nat, bounce: nat)
    requires Readable(mem, src, pitch, w, h, bounce)
    ensures h > 0 && 0 < w && bounce + BOUNCE_SIZE <= |mem| < REACH
  {
  }

  /** One turn of the engine: n rows from row done on. */
  method Fetch(mem: seq<byte>, src: nat, pitch: nat, w: nat, h: nat, bounce: nat, done: nat, n: nat)
    returns (bounced: seq<byte>)
    requires Readable(mem, src, pitch, w, h, bounce) && w <= BOUNCE_SIZE && pitch - w <= MAX_STRIDE && w <= pitch
    requires 0 < n && done + n <= h && n <= RowsPerChunk(w)
    ensures bounce + n * w <= |bounced|
    ensures forall r: nat :: r < n ==>
              RowArrived(bounced, bounce, w, mem, Origin(w, src, bounce), Step(w, pitch), done, r)
  {
    hide Engine, TxfrLen2D, Stride2D, Transfer, RowArrived, Clear, RowsPerChunk, Readable;
    ChunkReadable(mem, src, pitch, w, h, bounce, done, n);
    FewerRows(n, RowsPerChunk(w), w);
    ReadableWidth(mem, src, pitch, w, h, bounce);
    var from := src + done * pitch;
    var cb := ControlBlock(from, bounce, TxfrLen2D(w, n - 1), Stride2D(pitch - w, 0));
    bounced := Transfer(mem, cb);
    if w <= MAX_XLEN {
      ChunkBlock(from, bounce, pitch, w, n);
    } else {
      WideArrived(mem, cb, bounce, w, done, 0);
    }
    forall r: nat | r < n
      ensures RowArrived(bounced, bounce, w, mem, Origin(w, src, bounce), Step(w, pitch), done, r)
    {
      if w <= MAX_XLEN {
        ChunkArrived(mem, src, pitch, w, from, bounce, done, n, r);
      }
    }
  }

  /**
   * vc4_dma_get: each row arrives once, in order, and nothing else of the
   * destination is written; a chunk the engine fails on ends it with the rows
   * before it in place. works says which chunks the engine completes. Rows of the
   * source arrive exactly when their length fits its field.
   */
  method Get(mem: seq<byte>, src: nat, pitch: nat, dst: array<byte>, at: nat, modulo: nat, w: nat, h: nat, bounce: nat,
             works: nat -> bool) returns (ok: bool, done: nat)
    requires Readable(mem, src, pitch, w, h, bounce) && w <= BOUNCE_SIZE && pitch - w <= MAX_STRIDE
    requires w <= modulo && at + (h - 1) * modulo + w <= dst.Length
    modifies dst
    ensures done <= h && (ok ==> done == h)
    ensures Copied(dst[..], old(dst[..]), at, modulo, mem, Origin(w, src, bounce), Step(w, pitch), w, h, done)
  {
    hide Copied, Readable, RowsPerChunk, RowArrived, InRows;
    ReadableBounce(mem, src, pitch, w, h, bounce);
    ghost var from, step := Origin(w, src, bounce), Step(w, pitch);
    var perChunk := RowsPerChunk(w);
    ghost var was := dst[..];
    done, ok := 0, true;
    NothingCopied(was, at, modulo, mem, from, step, w, h);
    while done < h && ok
      invariant 0 <= done <= h && Copied(dst[..], was, at, modulo, mem, from, step, w, h, done)
      decreases h - done, ok
    {
      var n := h - done;
      if n > perChunk {
        n := perChunk;
      }
      ok := works(done);
      if ok {
        var bounced := Fetch(mem, src, pitch, w, h, bounce, done, n);
        CopyOut(bounced, bounce, w, n, dst, at, modulo, done, mem, was, from, step, h);
        done := done + n;
      }
    }
  }

  lemma ReadableBounce(mem: seq<byte>, src: nat, pitch: nat, w: nat, h: nat, bounce: nat)
    requires Readable(mem, src, pitch, w, h, bounce)
    ensures 0 < w <= pitch && 0 < h
  {
  }

  lemma NothingCopied(s: seq<byte>, at: nat, modulo: nat, mem: seq<byte>, src: nat, pitch: nat, w: nat, h: nat)
    ensures Copied(s, s, at, modulo, mem, src, pitch, w, h, 0)
  {
  }
}
