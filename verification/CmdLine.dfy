/**
 * One command line, two readers: the host strikes the word "rigel" out of the
 * copy it hands over, the guest looks words up in it. They do not separate
 * words in the same way.
 */
module CmdLine {
  import opened Bytes

  const SPACE: byte := 32
  const TAB: byte := 9
  const NUL: byte := 0
  const RIGEL: seq<byte> := [114, 105, 103, 101, 108]

  predicate Separator(b: byte) {
    b == SPACE || b == TAB || b == NUL
  }

  predicate At(line: seq<byte>, i: nat, word: seq<byte>) {
    i + |word| <= |line| && line[i..i + |word|] == word
  }

  /** The host's whole word: space or tab before, space, tab or NUL behind. */
  predicate HostWord(line: seq<byte>, i: nat) {
    && At(line, i, RIGEL)
    && (i == 0 || line[i - 1] == SPACE || line[i - 1] == TAB)
    && (i + 5 == |line| || Separator(line[i + 5]))
  }

  /** The guest's: space before, space or NUL behind. */
  predicate GuestWord(line: seq<byte>, i: nat, word: seq<byte>) {
    && At(line, i, word)
    && (i == 0 || line[i - 1] == SPACE)
    && (i + |word| == |line| || line[i + |word|] == SPACE || line[i + |word|] == NUL)
  }

  predicate GuestFinds(line: seq<byte>, word: seq<byte>) {
    exists i: nat :: i <= |line| && GuestWord(line, i, word)
  }

  /** Byte k belongs to a word that starts before n. */
  predicate Covered(line: seq<byte>, k: nat, n: nat) {
    exists j: nat :: j < n && j <= k < j + 5 && HostWord(line, j)
  }

  /** The line with the words that start before n struck out. */
  function StruckTo(line: seq<byte>, n: nat): (r: seq<byte>)
    ensures |r| == |line|
  {
    seq(|line|, k requires 0 <= k < |line| => if Covered(line, k, n) then SPACE else line[k])
  }

  function Struck(line: seq<byte>): (r: seq<byte>)
    ensures |r| == |line|
  {
    StruckTo(line, |line|)
  }

  /** Behind a struck byte: another of the word, or a separator. */
  lemma BehindStruck(line: seq<byte>, k: nat, n: nat)
    requires k > 0 && k < |line| && Covered(line, k - 1, n) && !Covered(line, k, n)
    ensures Separator(line[k])
  {
    var j: nat :| j < n && j <= k - 1 < j + 5 && HostWord(line, j);
  }

  /** Before a struck byte: another of the word, or a space or tab, or the start. */
  lemma BeforeStruck(line: seq<byte>, k: nat, n: nat)
    requires k > 0 && k < |line| && Covered(line, k, n) && !Covered(line, k - 1, n)
    ensures line[k - 1] == SPACE || line[k - 1] == TAB
  {
    var j: nat :| j < n && j <= k < j + 5 && HostWord(line, j);
  }

  /** A word without separators in the struck line is made of untouched bytes. */
  lemma WordUntouched(line: seq<byte>, n: nat, i: nat, word: seq<byte>)
    requires At(StruckTo(line, n), i, word) && forall b <- word :: !Separator(b)
    ensures At(line, i, word)
    ensures forall k :: i <= k < i + |word| ==> !Covered(line, k, n)
  {
    hide Covered;
    var s := StruckTo(line, n);
    forall k | i <= k < i + |word|
      ensures !Covered(line, k, n) && line[k] == word[k - i]
    {
      assert s[i..i + |word|][k - i] == word[k - i] == s[k] && word[k - i] in word;
    }
    assert line[i..i + |word|] == word;
  }

  /** What stands around it is what stood around it. */
  lemma EdgesUntouched(line: seq<byte>, n: nat, i: nat, word: seq<byte>)
    requires word != [] && At(StruckTo(line, n), i, word) && forall b <- word :: !Separator(b)
    ensures i > 0 ==> StruckTo(line, n)[i - 1] == line[i - 1]
    ensures i + |word| < |line| ==> StruckTo(line, n)[i + |word|] == line[i + |word|]
  {
    hide Covered;
    WordUntouched(line, n, i, word);
    if i > 0 && Covered(line, i - 1, n) {
      assert line[i..i + |word|][0] == word[0] && word[0] in word;
      BehindStruck(line, i, n);
    }
    var e := i + |word|;
    if e < |line| && Covered(line, e, n) {
      assert line[i..e][|word| - 1] == word[|word| - 1] && word[|word| - 1] in word;
      BeforeStruck(line, e, n);
    }
  }

  /** No word is left for the host: what still stands there was one before, and would have been struck. */
  lemma NothingLeft(line: seq<byte>, i: nat)
    ensures !HostWord(Struck(line), i)
  {
    if HostWord(Struck(line), i) {
      WordUntouched(line, |line|, i, RIGEL);
      EdgesUntouched(line, |line|, i, RIGEL);
      assert HostWord(line, i);
      assert Covered(line, i, |line|);
    }
  }

  /** The guest's search for the word fails on every struck line. */
  lemma GuestMissesRigel(line: seq<byte>)
    ensures !GuestFinds(Struck(line), RIGEL)
  {
    hide Struck;
    forall i: nat
      ensures !GuestWord(Struck(line), i, RIGEL)
    {
      NothingLeft(line, i);
    }
  }

  /** Striking twice is striking once. */
  lemma StruckTwice(line: seq<byte>)
    ensures Struck(Struck(line)) == Struck(line)
  {
    hide HostWord;
    var s := Struck(line);
    forall k | 0 <= k < |s|
      ensures !Covered(s, k, |s|)
    {
      forall j: nat
        ensures !HostWord(s, j)
      {
        NothingLeft(line, j);
      }
    }
  }

  /** Length and every byte outside struck words stay; the others become spaces. */
  lemma StruckBytes(line: seq<byte>, k: nat)
    requires k < |line|
    ensures Struck(line)[k] == line[k] ||
              (Struck(line)[k] == SPACE && exists j: nat :: j <= k < j + 5 && HostWord(line, j))
  {
    if Covered(line, k, |line|) {
      var j: nat :| j < |line| && j <= k < j + 5 && HostWord(line, j);
    }
  }

  /** A guest word that shares a byte with a host word is that word. */
  lemma SharedIsWhole(line: seq<byte>, i: nat, word: seq<byte>, j: nat, k: nat)
    requires GuestWord(line, i, word) && word != [] && forall b <- word :: !Separator(b)
    requires HostWord(line, j) && j <= k < j + 5 && i <= k < i + |word|
    ensures i == j && word == RIGEL
  {
    forall m | i <= m < i + |word|
      ensures !Separator(line[m])
    {
      assert line[m] == line[i..i + |word|][m - i] && word[m - i] in word;
    }
    forall m | j <= m < j + 5
      ensures !Separator(line[m])
    {
      assert line[m] == line[j..j + 5][m - j] == RIGEL[m - j];
    }
    assert i > 0 ==> line[i - 1] == SPACE;
    assert i <= j && j <= i;
    assert i + |word| == j + 5;
  }

  lemma GuestWordNotStruck(line: seq<byte>, n: nat, i: nat, word: seq<byte>, k: nat)
    requires GuestWord(line, i, word) && word != [] && word != RIGEL && forall b <- word :: !Separator(b)
    requires i <= k < i + |word|
    ensures !Covered(line, k, n)
  {
    forall j: nat | j < n && j <= k < j + 5
      ensures !HostWord(line, j)
    {
      if HostWord(line, j) {
        SharedIsWhole(line, i, word, j, k);
      }
    }
  }

  /** Every other word is found exactly where it was found before. */
  lemma OtherWordsKept(line: seq<byte>, i: nat, word: seq<byte>)
    requires word != [] && word != RIGEL && forall b <- word :: !Separator(b)
    ensures GuestWord(Struck(line), i, word) <==> GuestWord(line, i, word)
  {
    hide Covered;
    var s, n, e := Struck(line), |line|, i + |word|;
    if GuestWord(s, i, word) {
      WordUntouched(line, n, i, word);
      EdgesUntouched(line, n, i, word);
    }
    if GuestWord(line, i, word) {
      forall k | i <= k < e
        ensures s[k] == line[k]
      {
        GuestWordNotStruck(line, n, i, word, k);
      }
      assert s[i..e] == line[i..e];
      if e < |line| && Covered(line, e, n) {
      }
      if i > 0 && Covered(line, i - 1, n) {
      }
    }
  }

  lemma OtherWordsFound(line: seq<byte>, word: seq<byte>)
    requires word != [] && word != RIGEL && forall b <- word :: !Separator(b)
    ensures GuestFinds(Struck(line), word) <==> GuestFinds(line, word)
  {
    hide Struck, GuestWord;
    forall i: nat
      ensures GuestWord(Struck(line), i, word) <==> GuestWord(line, i, word)
    {
      OtherWordsKept(line, i, word);
    }
  }

  // ---- The two loops ----

  method Matches(line: seq<byte>, i: nat, word: seq<byte>) returns (ok: bool)
    ensures ok == At(line, i, word)
  {
    var j := 0;
    while j < |word|
      invariant 0 <= j <= |word| && (j > 0 ==> i + j <= |line|)
      invariant i + j <= |line| ==> line[i..i + j] == word[..j]
    {
      if i + j >= |line| || line[i + j] != word[j] {
        return false;
      }
      assert line[i..i + j + 1] == line[i..i + j] + [line[i + j]];
      j := j + 1;
    }
    ok := i + |word| <= |line|;
    assert word[..|word|] == word;
  }

  /** bootarg_present. */
  method BootargPresent(line: seq<byte>, wanted: seq<byte>) returns (found: bool)
    ensures found == GuestFinds(line, wanted)
  {
    var i := 0;
    while i + |wanted| <= |line|
      invariant 0 <= i <= |line| + 1
      invariant forall k: nat :: k < i ==> !GuestWord(line, k, wanted)
      decreases |line| + 1 - i
    {
      if i == 0 || line[i - 1] == SPACE {
        var same := Matches(line, i, wanted);
        if same && (i + |wanted| == |line| || line[i + |wanted|] == SPACE || line[i + |wanted|] == NUL) {
          assert GuestWord(line, i, wanted);
          return true;
        }
      }
      i := i + 1;
    }
    found := false;
  }

  /** Where the loop stands, words before i struck, the test at i sees what it would have seen at first. */
  lemma SameTest(line: seq<byte>, i: nat)
    requires i < |line|
    ensures HostWord(StruckTo(line, i), i) <==> HostWord(line, i)
  {
    var s := StruckTo(line, i);
    if HostWord(s, i) {
      WordUntouched(line, i, i, RIGEL);
      EdgesUntouched(line, i, i, RIGEL);
    }
    if HostWord(line, i) {
      forall k | i <= k <= i + 5 && k < |line|
        ensures !Covered(line, k, i)
      {
      }
      assert s[i..i + 5] == line[i..i + 5];
      if i > 0 && Covered(line, i - 1, i) {
      }
    }
  }

  lemma StrikeOne(line: seq<byte>, i: nat, t: seq<byte>)
    requires HostWord(line, i) && |t| == |line|
    requires forall k :: 0 <= k < |line| ==> t[k] == if i <= k < i + 5 then SPACE else StruckTo(line, i)[k]
    ensures t == StruckTo(line, i + 1)
  {
    forall k | 0 <= k < |line|
      ensures t[k] == StruckTo(line, i + 1)[k]
    {
      if i <= k < i + 5 {
        assert Covered(line, k, i + 1);
      } else {
        CoveredNext(line, i, k);
      }
    }
  }

  lemma CoveredNext(line: seq<byte>, i: nat, k: nat)
    requires HostWord(line, i) ==> !(i <= k < i + 5)
    ensures Covered(line, k, i + 1) <==> Covered(line, k, i)
  {
    if Covered(line, k, i + 1) {
      var j: nat :| j < i + 1 && j <= k < j + 5 && HostWord(line, j);
      assert j < i;
    }
    if Covered(line, k, i) {
      var j: nat :| j < i && j <= k < j + 5 && HostWord(line, j);
      assert j < i + 1;
    }
  }

  lemma StrikeNone(line: seq<byte>, i: nat)
    requires !HostWord(line, i)
    ensures StruckTo(line, i + 1) == StruckTo(line, i)
  {
    forall k | 0 <= k < |line|
      ensures StruckTo(line, i + 1)[k] == StruckTo(line, i)[k]
    {
      CoveredNext(line, i, k);
    }
  }

  /** The blanking loop of bellatrix_correct_guest_cmdline. */
  method StrikeRigel(line: array<byte>) returns (blanked: bool)
    modifies line
    ensures line[..] == Struck(old(line[..]))
    ensures blanked <==> exists i: nat :: HostWord(old(line[..]), i)
  {
    hide StruckTo, HostWord;
    ghost var was := line[..];
    StruckToNothing(was);
    blanked := false;
    var i := 0;
    while i < line.Length
      invariant 0 <= i <= line.Length && line[..] == StruckTo(was, i)
      invariant blanked <==> exists k: nat :: k < i && HostWord(was, k)
    {
      SameTest(was, i);
      var here := TestWord(line[..], i);
      if here {
        Blank(line, i);
        StrikeOne(was, i, line[..]);
        blanked := true;
      } else {
        StrikeNone(was, i);
      }
      i := i + 1;
    }
    NoWordBeyond(was);
  }

  lemma NoWordBeyond(line: seq<byte>)
    ensures forall i: nat :: HostWord(line, i) ==> i < |line|
  {
  }

  lemma StruckToNothing(line: seq<byte>)
    ensures StruckTo(line, 0) == line
  {
  }

  method TestWord(line: seq<byte>, i: nat) returns (here: bool)
    requires i < |line|
    ensures here == HostWord(line, i)
  {
    if i != 0 && line[i - 1] != SPACE && line[i - 1] != TAB {
      return false;
    }
    var same := Matches(line, i, RIGEL);
    if !same {
      return false;
    }
    here := i + 5 == |line| || line[i + 5] == SPACE || line[i + 5] == TAB || line[i + 5] == NUL;
  }

  method Blank(line: array<byte>, i: nat)
    requires HostWord(line[..], i)
    modifies line
    ensures forall k :: 0 <= k < line.Length ==> line[k] == if i <= k < i + 5 then SPACE else old(line[k])
  {
    for j := 0 to 5
      invariant i + 5 <= line.Length
      invariant forall k :: 0 <= k < line.Length ==> line[k] == if i <= k < i + j then SPACE else old(line[k])
    {
      line[i + j] := SPACE;
    }
  }
}
