/** Byte strings, 32-bit words and the two byte orders the driver deals in. */
module Bytes {

  type byte = x: int | 0 <= x < 0x100
  type u32 = x: int | 0 <= x < 0x1_0000_0000

  const U32_MAX: u32 := 0xFFFF_FFFF

  datatype Option<+T> = None | Some(value: T)

  /** ULONG arithmetic: the result is kept modulo 2^32. */
  function Wrap(x: int): u32 {
    x % 0x1_0000_0000
  }

  lemma WrapSmall(x: nat)
    requires x <= U32_MAX
    ensures Wrap(x) == x
  {
  }

  function Max(a: int, b: int): int {
    if a < b then b else a
  }

  /** ROUNDUP(x, n) for n a power of two. */
  function RoundUp(x: nat, n: nat): (r: nat)
    requires n > 0
    ensures x <= r < x + n && r % n == 0
  {
    RoundUpExact(x, n);
    (x + n - 1) / n * n
  }

  lemma RoundUpExact(x: nat, n: nat)
    requires n > 0
    ensures x <= (x + n - 1) / n * n < x + n
    ensures ((x + n - 1) / n * n) % n == 0
  {
    var q := (x + n - 1) / n;
    assert x + n - 1 == q * n + (x + n - 1) % n;
    MultipleMod(q, n);
  }

  /** A range that fits an aligned size still fits it rounded up. */
  lemma RoundUpWithin(used: nat, bytes: nat, size: nat)
    requires used % 16 == 0 && size % 16 == 0 && used + bytes <= size
    ensures used + RoundUp(bytes, 16) <= size && RoundUp(used + bytes, 16) == used + RoundUp(bytes, 16)
  {
    hide RoundUp;
  }

  lemma RoundUpWithin4(used: nat, bytes: nat, size: nat)
    requires used % 4 == 0 && size % 4 == 0 && used + bytes <= size
    ensures used + RoundUp(bytes, 4) <= size && (used + RoundUp(bytes, 4)) % 4 == 0
  {
    hide RoundUp;
  }

  lemma SumAligned(a: nat, b: nat)
    requires a % 16 == 0 && b % 16 == 0
    ensures (a + b) % 16 == 0
  {
  }

  /** Euclidean division is unique. */
  lemma DivUnique(x: int, q: int, n: int, r: int)
    requires n > 0 && 0 <= r < n && x == q * n + r
    ensures x / n == q && x % n == r
  {
    var d := x / n - q;
    assert d * n == x / n * n - q * n == r - x % n;
  }

  lemma MultipleMod(q: nat, n: nat)
    requires n > 0
    ensures (q * n) % n == 0
  {
    DivUnique(q * n, q, n, 0);
  }

  // ---- The two readings of a word ----

  function ReadLe(s: seq<byte>, i: nat): u32
    requires i + 4 <= |s|
  {
    (s[i] as int) + 0x100 * (s[i + 1] as int) + 0x1_0000 * (s[i + 2] as int) + 0x100_0000 * (s[i + 3] as int)
  }

  function ReadBe(s: seq<byte>, i: nat): u32
    requires i + 4 <= |s|
  {
    0x100_0000 * (s[i] as int) + 0x1_0000 * (s[i + 1] as int) + 0x100 * (s[i + 2] as int) + (s[i + 3] as int)
  }

  /** The four bytes put_u32_unaligned stores. */
  function LeBytes(v: u32): (b: seq<byte>)
    ensures |b| == 4 && ReadLe(b, 0) == v
  {
    assert v / 0x1_0000 == v / 0x100 / 0x100 && v / 0x100_0000 == v / 0x1_0000 / 0x100;
    [v % 0x100, v / 0x100 % 0x100, v / 0x1_0000 % 0x100, v / 0x100_0000]
  }

  lemma ReadLeAt(a: seq<byte>, b: seq<byte>, c: seq<byte>, v: u32)
    requires b == LeBytes(v)
    ensures ReadLe(a + b + c, |a|) == v
  {
    var s := a + b + c;
    assert s[|a|] == b[0] && s[|a| + 1] == b[1] && s[|a| + 2] == b[2] && s[|a| + 3] == b[3];
  }

  // ---- Bitwise or on naturals ----

  function BitOr(a: nat, b: nat): (r: nat)
    decreases a + b
  {
    if a == 0 then b
    else if b == 0 then a
    else 2 * BitOr(a / 2, b / 2) + Max(a % 2, b % 2)
  }

  function BitAnd(a: nat, b: nat): (r: nat)
    ensures r <= b
  {
    if a == 0 || b == 0 then 0
    else 2 * BitAnd(a / 2, b / 2) + (if a % 2 == 1 && b % 2 == 1 then 1 else 0)
  }

  /** Or-ing bits into the zero low bits of an aligned word is an addition. */
  lemma {:induction false} OrIntoClearedBits(a: nat, b: nat, n: nat)
    requires IsPow2(n) && a % n == 0 && b < n
    ensures BitOr(a, b) == a + b
    decreases n
  {
    if a != 0 && b != 0 {
      Halve(a, n);
      OrIntoClearedBits(a / 2, b / 2, n / 2);
    }
  }

  predicate IsPow2(n: nat) {
    n == 1 || (n > 0 && n % 2 == 0 && IsPow2(n / 2))
  }

  lemma Halve(a: nat, n: nat)
    requires n > 0 && n % 2 == 0 && a % n == 0
    ensures a % 2 == 0 && (a / 2) % (n / 2) == 0
  {
    var q, h := a / n, n / 2;
    assert a == q * n == 2 * (q * h) by {
      assert n == 2 * h;
      assert q * n == q * (2 * h) == 2 * (q * h);
    }
    assert a / 2 == q * h;
    MultipleMod(q, h);
  }

  lemma OrLow4(a: nat, b: nat)
    requires a % 16 == 0 && b < 16
    ensures BitOr(a, b) == a + b && (a + b) % 16 == b
  {
    hide BitOr;
    assert IsPow2(1) && IsPow2(2) && IsPow2(4) && IsPow2(8) && IsPow2(16);
    OrIntoClearedBits(a, b, 16);
    DivUnique(a + b, a / 16, 16, b);
  }

  // ---- Stores into byte buffers ----

  function Splice(s: seq<byte>, at: nat, b: seq<byte>): (r: seq<byte>)
    requires at + |b| <= |s|
    ensures |r| == |s|
  {
    s[..at] + b + s[at + |b|..]
  }

  /** Two stores side by side are one store. */
  lemma SpliceJoin(s: seq<byte>, at: nat, b: seq<byte>, c: seq<byte>)
    requires at + |b| + |c| <= |s|
    ensures Splice(Splice(s, at, b), at + |b|, c) == Splice(s, at, b + c)
  {
  }

  /** A store inside an earlier one. */
  lemma SpliceInside(s: seq<byte>, at: nat, b: seq<byte>, k: nat, c: seq<byte>)
    requires at + |b| <= |s| && k + |c| <= |b|
    ensures Splice(Splice(s, at, b), at + k, c) == Splice(s, at, Splice(b, k, c))
  {
  }

  lemma SplicePrefix(s: seq<byte>, at: nat, b: seq<byte>)
    requires at + |b| <= |s|
    ensures Splice(s, at, b)[..at] == s[..at] && Splice(s, at, b)[at..at + |b|] == b
    ensures Splice(s, at, b)[..at + |b|] == s[..at] + b
  {
  }

  method PutByte(a: array<byte>, at: nat, v: byte)
    requires at < a.Length
    modifies a
    ensures a[..] == Splice(old(a[..]), at, [v])
  {
    a[at] := v;
    assert a[..] == a[..at] + [a[at]] + a[at + 1..];
    assert a[..at] == old(a[..])[..at] && a[at + 1..] == old(a[..])[at + 1..];
  }

  method PutLe(a: array<byte>, at: nat, v: u32)
    requires at + 4 <= a.Length
    modifies a
    ensures a[..] == Splice(old(a[..]), at, LeBytes(v))
  {
    var b := LeBytes(v);
    a[at], a[at + 1], a[at + 2], a[at + 3] := b[0], b[1], b[2], b[3];
    assert a[at..at + 4] == b;
    assert a[..] == a[..at] + a[at..at + 4] + a[at + 4..];
    assert a[..at] == old(a[..])[..at];
    assert a[at + 4..] == old(a[..])[at + 4..];
  }

  method CopyMem(src: seq<byte>, dst: array<byte>, at: nat)
    requires at + |src| <= dst.Length
    modifies dst
    ensures dst[..] == Splice(old(dst[..]), at, src)
  {
    var i := 0;
    while i < |src|
      invariant 0 <= i <= |src|
      invariant dst[at..at + i] == src[..i]
      invariant forall j :: 0 <= j < dst.Length && !(at <= j < at + i) ==> dst[j] == old(dst[j])
    {
      dst[at + i] := src[i];
      i := i + 1;
    }
    assert dst[..] == dst[..at] + dst[at..at + |src|] + dst[at + |src|..];
    assert dst[..at] == old(dst[..])[..at];
    assert dst[at + |src|..] == old(dst[..])[at + |src|..];
  }
}
