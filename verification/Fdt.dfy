/**
 * Flattened devicetrees (Devicetree Specification, section 5.4) and the walker
 * that rebuilds the tree after the heap exists.
 */
module Fdt {
  import opened Bytes

  const BEGIN_NODE: u32 := 1
  const END_NODE: u32 := 2
  const PROP: u32 := 3
  const NOP: u32 := 4
  const END: u32 := 9

  /** A property: where its name is in the strings block, and its value. */
  datatype Prop = Prop(nameOff: u32, value: seq<byte>)

  datatype Node = Node(name: seq<byte>, props: seq<Prop>, children: seq<Node>)

  /** What stands between the name of a node and its end: NOPs may be anywhere. */
  datatype Items =
    | Done
    | Nop(rest: Items)
    | Property(prop: Prop, rest: Items)
    | Child(name: seq<byte>, items: Items, rest: Items)

  // ---- The flattener ----

  function BeBytes(v: u32): (b: seq<byte>)
    ensures |b| == 4 && ReadBe(b, 0) == v
  {
    BeBytesRead(v);
    [v / 0x100_0000, v / 0x1_0000 % 0x100, v / 0x100 % 0x100, v % 0x100]
  }

  lemma BeBytesRead(v: u32)
    ensures v == 0x100_0000 * (v / 0x100_0000) + 0x1_0000 * (v / 0x1_0000 % 0x100)
                 + 0x100 * (v / 0x100 % 0x100) + v % 0x100
  {
    assert v / 0x100 == v / 0x1_0000 * 0x100 + v / 0x100 % 0x100;
    assert v / 0x1_0000 == v / 0x100_0000 * 0x100 + v / 0x1_0000 % 0x100;
  }

  function Zeroes(n: nat): (z: seq<byte>)
    ensures |z| == n
  {
    seq(n, i => 0)
  }

  /** Padded with zeroes to whole cells. */
  function Padded(b: seq<byte>): (p: seq<byte>)
    ensures |p| == RoundUp(|b|, 4) && p[..|b|] == b
  {
    b + Zeroes(RoundUp(|b|, 4) - |b|)
  }

  /** A name with its terminator. */
  function NameBytes(name: seq<byte>): (p: seq<byte>)
    ensures |p| == RoundUp(|name| + 1, 4)
  {
    Padded(name + [0])
  }

  function FlatProp(p: Prop): seq<byte>
    requires |p.value| <= U32_MAX
  {
    BeBytes(PROP) + BeBytes(|p.value|) + BeBytes(p.nameOff) + Padded(p.value)
  }

  predicate WellFormed(it: Items) {
    match it
    case Done => true
    case Nop(rest) => WellFormed(rest)
    case Property(p, rest) => |p.value| <= U32_MAX && WellFormed(rest)
    case Child(name, items, rest) => 0 !in name && WellFormed(items) && WellFormed(rest)
  }

  function FlatItems(it: Items): seq<byte>
    requires WellFormed(it)
  {
    match it
    case Done => BeBytes(END_NODE)
    case Nop(rest) => BeBytes(NOP) + FlatItems(rest)
    case Property(p, rest) => FlatProp(p) + FlatItems(rest)
    case Child(name, items, rest) => BeBytes(BEGIN_NODE) + (NameBytes(name) + (FlatItems(items) + FlatItems(rest)))
  }

  // ---- The tree it stands for ----

  function Props(it: Items): seq<Prop> {
    match it
    case Done => []
    case Nop(rest) => Props(rest)
    case Property(p, rest) => [p] + Props(rest)
    case Child(_, _, rest) => Props(rest)
  }

  function Kids(it: Items): seq<Node> {
    match it
    case Done => []
    case Nop(rest) => Kids(rest)
    case Property(_, rest) => Kids(rest)
    case Child(name, items, rest) => [Node(name, Props(items), Kids(items))] + Kids(rest)
  }

  // ---- The walker ----

  /** The byte after a name, found by its terminator; the end of the block when there is none. */
  function NameEnd(s: seq<byte>, i: nat): (e: nat)
    requires i <= |s|
    ensures i <= e <= |s| && 0 !in s[i..e] && (e < |s| ==> s[e] == 0)
    decreases |s| - i
  {
    if i == |s| || s[i] == 0 then i
    else
      var e := NameEnd(s, i + 1);
      assert s[i..e] == [s[i]] + s[i + 1..e];
      e
  }

  function Clip(s: seq<byte>, lo: nat, n: nat): seq<byte> {
    if lo >= |s| then [] else if lo + n <= |s| then s[lo..lo + n] else s[lo..]
  }

  /** dt_build_node: at is behind the BEGIN_NODE token; the node, and where the cursor is left. */
  function ParseNode(s: seq<byte>, at: nat): (r: (Node, nat))
    ensures r.1 >= at + 4
    decreases |s| + 8 - at, 1
  {
    if at >= |s| then (Node([], [], []), at + 4)
    else
      var e := NameEnd(s, at);
      ParseItems(s, at + RoundUp(e - at + 1, 4), Node(s[at..e], [], []))
  }

  /** The loop of dt_build_node. */
  function ParseItems(s: seq<byte>, at: nat, node: Node): (r: (Node, nat))
    ensures r.1 >= at
    decreases |s| + 8 - at, 0
  {
    if at + 4 > |s| then (node, at)
    else
      var token := ReadBe(s, at);
      if token == BEGIN_NODE then
        var (child, next) := ParseNode(s, at + 4);
        ParseItems(s, next, node.(children := node.children + [child]))
      else if token == PROP then
        if at + 12 > |s| then (node, at + 4)
        else
          var length, nameOff := ReadBe(s, at + 4), ReadBe(s, at + 8);
          ParseItems(s, at + 12 + RoundUp(length, 4),
              node.(props := node.props + [Prop(nameOff, Clip(s, at + 12, length))]))
      else if token == NOP then ParseItems(s, at + 4, node)
      else (node, at + 4)
  }

  /** dt_parse on a structure block: everything before the first BEGIN_NODE is skipped, unless it is END. */
  function ParseBlock(s: seq<byte>, at: nat): Option<Node>
    decreases |s| - at
  {
    if at + 4 > |s| then None
    else if ReadBe(s, at) == BEGIN_NODE then Some(ParseNode(s, at + 4).0)
    else if ReadBe(s, at) == END then None
    else ParseBlock(s, at + 4)
  }

  // ---- Parsing undoes flattening ----

  predicate Has(s: seq<byte>, at: nat, b: seq<byte>) {
    at + |b| <= |s| && s[at..at + |b|] == b
  }

  lemma HasParts(s: seq<byte>, at: nat, a: seq<byte>, b: seq<byte>)
    requires Has(s, at, a + b)
    ensures Has(s, at, a) && Has(s, at + |a|, b)
  {
    var m := s[at..at + |a + b|];
    assert m[..|a|] == a && m[|a|..] == b;
    assert s[at..at + |a|] == m[..|a|] && s[at + |a|..at + |a| + |b|] == m[|a|..];
  }

  lemma HasWord(s: seq<byte>, at: nat, v: u32)
    requires Has(s, at, BeBytes(v))
    ensures at + 4 <= |s| && ReadBe(s, at) == v
  {
    hide BeBytes;
    var m := s[at..at + 4];
    assert m == BeBytes(v);
    assert m[0] == s[at] && m[1] == s[at + 1] && m[2] == s[at + 2] && m[3] == s[at + 3];
  }

  lemma {:induction false} NameEndAt(s: seq<byte>, i: nat, name: seq<byte>)
    requires Has(s, i, name) && 0 !in name && i + |name| < |s| && s[i + |name|] == 0
    ensures NameEnd(s, i) == i + |name|
    decreases |name|
  {
    if name != [] {
      var m := s[i..i + |name|];
      assert m[0] == s[i];
      assert s[i + 1..i + |name|] == m[1..];
      NameEndAt(s, i + 1, name[1..]);
    }
  }

  lemma HasName(s: seq<byte>, at: nat, name: seq<byte>)
    requires Has(s, at, NameBytes(name)) && 0 !in name
    ensures NameEnd(s, at) == at + |name| && s[at..at + |name|] == name
  {
    var p := NameBytes(name);
    assert p[..|name| + 1] == name + [0];
    assert p[..|name|] == name && p[|name|] == 0;
    var m := s[at..at + |p|];
    assert s[at..at + |name|] == m[..|name|] && s[at + |name|] == m[|name|];
    NameEndAt(s, at, name);
  }

  lemma HasProp(s: seq<byte>, at: nat, p: Prop)
    requires |p.value| <= U32_MAX && Has(s, at, FlatProp(p))
    ensures at + 12 <= |s| && ReadBe(s, at) == PROP && ReadBe(s, at + 4) == |p.value| && ReadBe(s, at + 8) == p.nameOff
    ensures at + 12 + |p.value| <= |s| && s[at + 12..at + 12 + |p.value|] == p.value == Clip(s, at + 12, |p.value|)
    ensures |FlatProp(p)| == 12 + RoundUp(|p.value|, 4)
  {
    hide BeBytes, ReadBe, RoundUp;
    HasParts(s, at, BeBytes(PROP) + BeBytes(|p.value|) + BeBytes(p.nameOff), Padded(p.value));
    HasParts(s, at, BeBytes(PROP) + BeBytes(|p.value|), BeBytes(p.nameOff));
    HasParts(s, at, BeBytes(PROP), BeBytes(|p.value|));
    HasWord(s, at, PROP);
    HasWord(s, at + 4, |p.value|);
    HasWord(s, at + 8, p.nameOff);
  }

  lemma AtDone(s: seq<byte>, at: nat, node: Node)
    requires Has(s, at, BeBytes(END_NODE))
    ensures ParseItems(s, at, node) == (node, at + 4)
  {
    HasWord(s, at, END_NODE);
  }

  lemma AtNop(s: seq<byte>, at: nat, rest: Items, node: Node)
    requires WellFormed(rest) && Has(s, at, BeBytes(NOP) + FlatItems(rest))
    ensures Has(s, at + 4, FlatItems(rest)) && ParseItems(s, at, node) == ParseItems(s, at + 4, node)
  {
    hide BeBytes, ReadBe, FlatItems;
    HasParts(s, at, BeBytes(NOP), FlatItems(rest));
    HasWord(s, at, NOP);
  }

  lemma AtProp(s: seq<byte>, at: nat, p: Prop, rest: Items, node: Node)
    requires |p.value| <= U32_MAX && WellFormed(rest) && Has(s, at, FlatProp(p) + FlatItems(rest))
    ensures Has(s, at + |FlatProp(p)|, FlatItems(rest))
    ensures ParseItems(s, at, node) == ParseItems(s, at + |FlatProp(p)|, node.(props := node.props + [p]))
  {
    hide ReadBe, FlatItems, FlatProp, RoundUp;
    HasParts(s, at, FlatProp(p), FlatItems(rest));
    HasProp(s, at, p);
  }

  /** A child: where its items start and where what follows it starts. */
  lemma AtChild(s: seq<byte>, at: nat, name: seq<byte>, items: seq<byte>, rest: seq<byte>)
    requires 0 !in name && Has(s, at, BeBytes(BEGIN_NODE) + (NameBytes(name) + (items + rest)))
    ensures at + 4 <= |s| && ReadBe(s, at) == BEGIN_NODE && Has(s, at + 4, NameBytes(name))
    ensures Has(s, at + 4 + |NameBytes(name)|, items) && Has(s, at + 4 + |NameBytes(name)| + |items|, rest)
    ensures ParseNode(s, at + 4) == ParseItems(s, at + 4 + |NameBytes(name)|, Node(name, [], []))
  {
    hide BeBytes, ReadBe, NameBytes, ParseItems, ParseNode, Has;
    HasParts(s, at, BeBytes(BEGIN_NODE), NameBytes(name) + (items + rest));
    HasWord(s, at, BEGIN_NODE);
    HasParts(s, at + 4, NameBytes(name), items + rest);
    HasParts(s, at + 4 + |NameBytes(name)|, items, rest);
    ParseChild(s, at + 4, name);
  }

  lemma ChildParsed(s: seq<byte>, at: nat, node: Node, child: Node, next: nat)
    requires at + 4 <= |s| && ReadBe(s, at) == BEGIN_NODE && ParseNode(s, at + 4) == (child, next)
    ensures ParseItems(s, at, node) == ParseItems(s, next, node.(children := node.children + [child]))
  {
    hide ParseNode, ReadBe;
  }

  /** Wherever the items of a node stand in a block, the walker appends exactly their tree, in order. */
  lemma {:induction false} ParseFlat(s: seq<byte>, at: nat, it: Items, node: Node)
    requires WellFormed(it) && Has(s, at, FlatItems(it))
    ensures ParseItems(s, at, node)
         == (node.(props := node.props + Props(it), children := node.children + Kids(it)), at + |FlatItems(it)|)
    decreases it, 1
  {
    hide BeBytes, ReadBe, NameBytes, FlatProp, ParseItems, ParseNode, Has;
    match it
    case Done =>
      AtDone(s, at, node);
      assert node.props + [] == node.props && node.children + [] == node.children;
    case Nop(rest) =>
      AtNop(s, at, rest, node);
      ParseFlat(s, at + 4, rest, node);
    case Property(p, rest) =>
      AtProp(s, at, p, rest, node);
      ParseFlat(s, at + |FlatProp(p)|, rest, node.(props := node.props + [p]));
      assert node.props + [p] + Props(rest) == node.props + ([p] + Props(rest));
    case Child(name, items, rest) =>
      ParseFlatChild(s, at, name, items, rest, node);
  }

  lemma {:induction false} ParseFlatChild(s: seq<byte>, at: nat, name: seq<byte>, items: Items, rest: Items, node: Node)
    requires 0 !in name && WellFormed(items) && WellFormed(rest)
    requires Has(s, at, BeBytes(BEGIN_NODE) + (NameBytes(name) + (FlatItems(items) + FlatItems(rest))))
    ensures var child := Node(name, Props(items), Kids(items));
            var end := at + 4 + |NameBytes(name)| + |FlatItems(items)| + |FlatItems(rest)|;
            var whole := node.(props := node.props + Props(rest), children := node.children + ([child] + Kids(rest)));
            ParseItems(s, at, node) == (whole, end)
    decreases Child(name, items, rest), 0
  {
    hide BeBytes, ReadBe, NameBytes, FlatProp, FlatItems, Props, Kids, ParseItems, ParseNode, Has, WellFormed;
    AtChild(s, at, name, FlatItems(items), FlatItems(rest));
    var inner := at + 4 + |NameBytes(name)|;
    ParseFlat(s, inner, items, Node(name, [], []));
    var child := Node(name, Props(items), Kids(items));
    assert [] + Props(items) == Props(items) && [] + Kids(items) == Kids(items);
    ChildParsed(s, at, node, child, inner + |FlatItems(items)|);
    ParseFlat(s, inner + |FlatItems(items)|, rest, node.(children := node.children + [child]));
    assert node.children + [child] + Kids(rest) == node.children + ([child] + Kids(rest));
  }

  lemma ParseChild(s: seq<byte>, at: nat, name: seq<byte>)
    requires Has(s, at, NameBytes(name)) && 0 !in name
    ensures ParseNode(s, at) == ParseItems(s, at + |NameBytes(name)|, Node(name, [], []))
  {
    hide ParseItems, RoundUp;
    HasName(s, at, name);
  }

  /** n NOPs. */
  function Nops(n: nat): seq<byte> {
    if n == 0 then [] else BeBytes(NOP) + Nops(n - 1)
  }

  /** dt_parse rebuilds every tree from its flat form, with the order of properties and children, NOPs anywhere. */
  lemma {:induction false} ParseUndoesFlatten(s: seq<byte>, at: nat, n: nat, name: seq<byte>, it: Items)
    requires WellFormed(it) && 0 !in name
    requires Has(s, at, Nops(n) + (BeBytes(BEGIN_NODE) + (NameBytes(name) + FlatItems(it))))
    ensures ParseBlock(s, at) == Some(Node(name, Props(it), Kids(it)))
    decreases n
  {
    hide BeBytes, ReadBe, NameBytes, FlatItems, ParseItems;
    var flat := BeBytes(BEGIN_NODE) + (NameBytes(name) + FlatItems(it));
    HasParts(s, at, Nops(n), flat);
    if n > 0 {
      HasParts(s, at, BeBytes(NOP), Nops(n - 1));
      HasWord(s, at, NOP);
      assert Nops(n) + flat == BeBytes(NOP) + (Nops(n - 1) + flat);
      HasParts(s, at, BeBytes(NOP), Nops(n - 1) + flat);
      ParseUndoesFlatten(s, at + 4, n - 1, name, it);
    } else {
      HasParts(s, at, BeBytes(BEGIN_NODE), NameBytes(name) + FlatItems(it));
      HasWord(s, at, BEGIN_NODE);
      HasParts(s, at + 4, NameBytes(name), FlatItems(it));
      ParseChild(s, at + 4, name);
      ParseFlat(s, at + 4 + |NameBytes(name)|, it, Node(name, [], []));
      assert [] + Props(it) == Props(it) && [] + Kids(it) == Kids(it);
    }
  }
}
