/** The in-place byte swap of relocate_shader_recs on a copied vertex range, for any stride. */
module VertexSwap {
  import opened Bytes

  function SwapWord(s: seq<byte>, at: nat): (t: seq<byte>)
    requires at + 4 <= |s|
    ensures |t| == |s|
  {
    s[at := s[at + 3]][at + 1 := s[at + 2]][at + 2 := s[at + 1]][at + 3 := s[at]]
  }

  /** The inner loop: n words of one vertex. */
  function SwapWords(s: seq<byte>, at: nat, n: nat): (t: seq<byte>)
    requires at + 4 * n <= |s|
    ensures |t| == |s|
  {
    if n == 0 then s else SwapWord(SwapWords(s, at, n - 1), at + 4 * (n - 1))
  }

  /** Where vertex v starts: v * stride, as the loop adds it up. */
  function Lead(stride: nat, v: nat): (r: nat)
  {
    if v == 0 then 0 else Lead(stride, v - 1) + stride
  }

  lemma {:induction false} LeadIs(stride: nat, v: nat)
    ensures Lead(stride, v) == v * stride
  {
    if v > 0 {
      LeadIs(stride, v - 1);
      assert v * stride == (v - 1) * stride + stride;
    }
  }

  lemma {:induction false} LeadGrows(stride: nat, v: nat, count: nat)
    requires v < count
    ensures Lead(stride, v) + stride <= Lead(stride, count)
  {
    if v < count - 1 {
      LeadGrows(stride, v, count - 1);
    }
  }

  /** The outer loop: count vertices a stride apart. A vertex wider than the stride reaches into the next one. */
  function SwapAll(s: seq<byte>, at: nat, stride: nat, n: nat, count: nat): (t: seq<byte>)
    requires at + Lead(stride, count) + 4 * n <= |s|
    ensures |t| == |s|
  {
    if count == 0 then s
    else SwapWords(SwapAll(s, at, stride, n, count - 1), at + Lead(stride, count - 1), n)
  }

  /** Byte b of word w comes from the other end of its word. */
  lemma {:induction false} WordByte(s: seq<byte>, at: nat, n: nat, w: nat, b: nat)
    requires at + 4 * n <= |s| && w < n && b < 4
    ensures SwapWords(s, at, n)[at + 4 * w + b] == s[at + 4 * w + 3 - b]
  {
    if w < n - 1 {
      WordByte(s, at, n - 1, w, b);
    } else {
      WordsKeep(s, at, n - 1, at + 4 * w + 3 - b);
    }
  }

  lemma {:induction false} WordsKeep(s: seq<byte>, at: nat, n: nat, i: nat)
    requires at + 4 * n <= |s| && i < |s| && (i < at || at + 4 * n <= i)
    ensures SwapWords(s, at, n)[i] == s[i]
  {
    if n > 0 {
      WordsKeep(s, at, n - 1, i);
    }
  }

  /** Nothing before the range changes, and nothing behind the last word of the last vertex. */
  lemma {:induction false} KeptOutside(s: seq<byte>, at: nat, stride: nat, n: nat, count: nat, i: nat)
    requires at + Lead(stride, count) + 4 * n <= |s| && i < |s|
    requires i < at || (count > 0 ==> at + Lead(stride, count - 1) + 4 * n <= i)
    ensures SwapAll(s, at, stride, n, count)[i] == s[i]
  {
    hide SwapWords;
    if count > 0 {
      KeptOutside(s, at, stride, n, count - 1, i);
      WordsKeep(SwapAll(s, at, stride, n, count - 1), at + Lead(stride, count - 1), n, i);
    }
  }

  /** When words fit the stride, they are swapped in every vertex, and the bytes behind them are kept. */
  lemma {:induction false} VertexByte(s: seq<byte>, at: nat, stride: nat, n: nat, count: nat, v: nat, w: nat, b: nat)
    requires at + Lead(stride, count) + 4 * n <= |s| && 4 * n <= stride && v < count && w < n && b < 4
    ensures at + Lead(stride, v) + stride <= |s|
    ensures SwapAll(s, at, stride, n, count)[at + Lead(stride, v) + 4 * w + b]
              == s[at + Lead(stride, v) + 4 * w + 3 - b]
  {
    hide SwapWords;
    var before, lead := SwapAll(s, at, stride, n, count - 1), at + Lead(stride, count - 1);
    if v < count - 1 {
      LeadGrows(stride, v, count - 1);
      VertexByte(s, at, stride, n, count - 1, v, w, b);
      WordsKeep(before, lead, n, at + Lead(stride, v) + 4 * w + b);
    } else {
      WordByte(before, lead, n, w, b);
      KeptOutside(s, at, stride, n, count - 1, lead + 4 * w + 3 - b);
    }
  }

  lemma {:induction false} VertexTail(s: seq<byte>, at: nat, stride: nat, n: nat, count: nat, v: nat, b: nat)
    requires at + Lead(stride, count) + 4 * n <= |s| && 4 * n <= b < stride && v < count
    ensures at + Lead(stride, v) + stride <= |s|
    ensures SwapAll(s, at, stride, n, count)[at + Lead(stride, v) + b] == s[at + Lead(stride, v) + b]
  {
    hide SwapWords;
    var before, lead := SwapAll(s, at, stride, n, count - 1), at + Lead(stride, count - 1);
    if v < count - 1 {
      LeadGrows(stride, v, count - 1);
      VertexTail(s, at, stride, n, count - 1, v, b);
    } else {
      KeptOutside(s, at, stride, n, count - 1, lead + b);
    }
    WordsKeep(before, lead, n, at + Lead(stride, v) + b);
  }

  // ---- Copying a range and swapping it ----

  /** Vertices on their way from a buffer into the scratch: count of them, a stride apart, n words swapped in each. */
  datatype Copy = Copy(scratch: seq<byte>, at: nat, mem: seq<byte>, from: nat, stride: nat, n: nat, count: nat)

  predicate Fits(c: Copy) {
    && c.from + Lead(c.stride, c.count) <= |c.mem|
    && c.at + Lead(c.stride, c.count) + 4 * c.n <= |c.scratch|
  }

  /** The scratch after the copy and the loops. */
  function Copied(c: Copy): (t: seq<byte>)
    requires Fits(c)
    ensures |t| == |c.scratch|
  {
    SwapAll(Splice(c.scratch, c.at, c.mem[c.from..c.from + Lead(c.stride, c.count)]), c.at, c.stride, c.n, c.count)
  }

  /** Word w of vertex v, if the buffer holds it, is found little-endian as the CPU wrote it. */
  predicate WordReads(c: Copy, v: nat, w: nat) {
    var i := Lead(c.stride, v) + 4 * w;
    Fits(c) && v < c.count && w < c.n && c.from + i + 4 <= |c.mem| ==>
      c.at + i + 4 <= |c.scratch| && ReadLe(Copied(c), c.at + i) == ReadBe(c.mem, c.from + i)
  }

  lemma ByteReads(c: Copy, v: nat, w: nat, b: nat)
    requires Fits(c) && 4 * c.n <= c.stride && v < c.count && w < c.n && b < 4
    ensures Lead(c.stride, v) + c.stride <= Lead(c.stride, c.count)
    ensures Copied(c)[c.at + Lead(c.stride, v) + 4 * w + b] == c.mem[c.from + Lead(c.stride, v) + 4 * w + 3 - b]
  {
    hide SwapAll;
    LeadGrows(c.stride, v, c.count);
    var s := Splice(c.scratch, c.at, c.mem[c.from..c.from + Lead(c.stride, c.count)]);
    VertexByte(s, c.at, c.stride, c.n, c.count, v, w, b);
  }

  /** Words that fit the stride are read back. */
  lemma CoveredReads(c: Copy, v: nat, w: nat)
    requires Fits(c) && 4 * c.n <= c.stride && v < c.count && w < c.n
    ensures WordReads(c, v, w) && Lead(c.stride, v) + c.stride <= Lead(c.stride, c.count)
  {
    hide Copied;
    ByteReads(c, v, w, 0);
    ByteReads(c, v, w, 1);
    ByteReads(c, v, w, 2);
    ByteReads(c, v, w, 3);
  }

  /** When the words are wider than the stride, the last byte of the last vertex is the scratch byte behind the copy. */
  lemma LastByte(c: Copy)
    requires Fits(c) && c.count > 0 && 0 < c.stride < 4 * c.n
    ensures var last := Lead(c.stride, c.count - 1) + 4 * c.n - 1; Copied(c)[c.at + last - 3] == c.scratch[c.at + last]
  {
    hide SwapWords;
    var lead := c.at + Lead(c.stride, c.count - 1);
    var s := Splice(c.scratch, c.at, c.mem[c.from..c.from + Lead(c.stride, c.count)]);
    WordByte(SwapAll(s, c.at, c.stride, c.n, c.count - 1), lead, c.n, c.n - 1, 0);
    KeptOutside(s, c.at, c.stride, c.n, c.count - 1, lead + 4 * c.n - 1);
  }

  /** So that word is lost whenever that byte differs from the buffer's. */
  lemma LastWordLost(c: Copy)
    requires Fits(c) && c.count > 0 && 0 < c.stride < 4 * c.n
    requires var last := Lead(c.stride, c.count - 1) + 4 * c.n - 1;
             c.from + last < |c.mem| && c.scratch[c.at + last] != c.mem[c.from + last]
    ensures !WordReads(c, c.count - 1, c.n - 1)
  {
    hide Copied;
    LastByte(c);
    var i := Lead(c.stride, c.count - 1) + 4 * c.n - 4;
    assert ReadLe(Copied(c), c.at + i) % 0x100 == Copied(c)[c.at + i] as int;
    assert ReadBe(c.mem, c.from + i) % 0x100 == c.mem[c.from + i + 3] as int;
  }

  /**
   * Exactly when the swap serialises: for every memory and scratch all words of
   * count vertices are read back, if and only if the words fit the stride.
   */
  lemma ReadsExactly(stride: nat, n: nat, count: nat)
    requires count > 0 && stride > 0
    ensures (forall c: Copy, v: nat, w: nat :: c.stride == stride && c.n == n && c.count == count ==>
              WordReads(c, v, w))
       <==> 4 * n <= stride
  {
    if 4 * n <= stride {
      forall c: Copy, v: nat, w: nat | c.stride == stride && c.n == n && c.count == count
        ensures WordReads(c, v, w)
      {
        if Fits(c) && v < c.count && w < c.n {
          CoveredReads(c, v, w);
        }
      }
    } else {
      var size := Lead(stride, count) + 4 * n;
      LastWordLost(Copy(seq(size, i => 1), 0, seq(size, i => 0), 0, stride, n, count));
    }
  }
}
