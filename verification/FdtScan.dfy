/** parse_fdt: the boot-time scan that keeps only a depth and three flags, against lookup in the tree. */
module FdtScan {
  import opened Bytes
  import opened Fdt

  const MEMORY: seq<byte> := [109, 101, 109, 111, 114, 121]
  const CHOSEN: seq<byte> := [99, 104, 111, 115, 101, 110]
  const EMU68: seq<byte> := [101, 109, 117, 54, 56]
  const REG: seq<byte> := [114, 101, 103]
  const BOOTARGS: seq<byte> := [98, 111, 111, 116, 97, 114, 103, 115]
  const HOST_MEM: seq<byte> := [104, 111, 115, 116, 45, 109, 101, 109]
  const ADDRESS_CELLS: seq<byte> := [35, 97, 100, 100, 114, 101, 115, 115, 45, 99, 101, 108, 108, 115]
  const SIZE_CELLS: seq<byte> := [35, 115, 105, 122, 101, 45, 99, 101, 108, 108, 115]
  const AT_SIGN: byte := 64

  /** What the scan reports. */
  datatype Found = Found(memory: Option<(u32, u32)>, bootargs: Option<seq<byte>>, hostMemEnd: Option<u32>)

  datatype Scan = Scan(
    addressCells: u32, sizeCells: u32, depth: nat,
    inMemory: bool, inEmu68: bool, inChosen: bool, found: Found)

  const START: Scan := Scan(1, 1, 0, false, false, false, Found(None, None, None))

  /** fdt_string: a name that ends inside the strings block. */
  function StringAt(strings: seq<byte>, off: nat): Option<seq<byte>> {
    if off >= |strings| then None
    else
      var e := NameEnd(strings, off);
      if e == |strings| then None else Some(strings[off..e])
  }

  /** node_is_memory; also how a path component without unit address matches a node name. */
  predicate Matches(name: seq<byte>, component: seq<byte>) {
    component <= name && (|name| == |component| || name[|component|] == AT_SIGN)
  }

  /** The string at off is the bytes up to the first zero behind it. */
  lemma StringExactly(strings: seq<byte>, off: nat, name: seq<byte>)
    ensures StringAt(strings, off) == Some(name)
       <==> && off + |name| < |strings| && strings[off..off + |name|] == name && strings[off + |name|] == 0
            && 0 !in name
  {
    if off + |name| < |strings| && strings[off..off + |name|] == name && strings[off + |name|] == 0 && 0 !in name {
      var e := NameEnd(strings, off);
      assert forall m :: off <= m < off + |name| ==> strings[m] == strings[off..off + |name|][m - off] != 0;
      assert forall m :: off <= m < e ==> strings[m] == strings[off..e][m - off] != 0;
      assert e == off + |name|;
    }
  }

  /** A component matches a node of that name, with any unit address. */
  lemma MatchesExactly(name: seq<byte>, component: seq<byte>)
    ensures Matches(name, component)
       <==> name == component || exists unit: seq<byte> :: WithUnit(name, component, unit)
  {
    if Matches(name, component) && name != component {
      assert WithUnit(name, component, name[|component| + 1..]);
    }
  }

  predicate WithUnit(name: seq<byte>, component: seq<byte>, unit: seq<byte>) {
    name == component + ['@' as byte] + unit
  }

  /** The names the scan looks for. */
  lemma NamesAre()
    ensures MEMORY == Ascii("memory") && CHOSEN == Ascii("chosen") && EMU68 == Ascii("emu68") && REG == Ascii("reg")
    ensures BOOTARGS == Ascii("bootargs") && HOST_MEM == Ascii("host-mem")
    ensures ADDRESS_CELLS == Ascii("#address-cells") && SIZE_CELLS == Ascii("#size-cells")
  {
  }

  function Ascii(s: string): (b: seq<byte>)
    requires forall i :: 0 <= i < |s| ==> s[i] < 128 as char
    ensures |b| == |s|
  {
    seq(|s|, i requires 0 <= i < |s| => s[i] as byte)
  }

  /** cells_to_u32: the last cell if the others are 0. Cells outside the value read as nothing. */
  function CellsToU32(value: seq<byte>, at: nat, count: nat): u32
    decreases count
  {
    if count == 0 || at + 4 * count > |value| then 0
    else if count == 1 then ReadBe(value, at)
    else if ReadBe(value, at) != 0 then 0
    else CellsToU32(value, at + 4, count - 1)
  }

  /** The range in a reg property, when it is long enough and not empty. */
  function MemoryRange(value: seq<byte>, addressCells: u32, sizeCells: u32): Option<(u32, u32)> {
    if |value| < Wrap(Wrap(addressCells + sizeCells) * 4) then None
    else
      var size := CellsToU32(value, 4 * addressCells, sizeCells);
      if size == 0 then None else Some((CellsToU32(value, 0, addressCells), size))
  }

  // ---- What the cells of a reg property say ----

  function Pow32(n: nat): (r: nat)
    ensures r > 0
  {
    if n == 0 then 1 else 0x1_0000_0000 * Pow32(n - 1)
  }

  /** The big-endian number of count cells. */
  function Number(value: seq<byte>, at: nat, count: nat): nat
    requires at + 4 * count <= |value|
    decreases count
  {
    if count == 0 then 0 else ReadBe(value, at) * Pow32(count - 1) + Number(value, at + 4, count - 1)
  }

  /** It is read when it fits 32 bits, and as 0 otherwise. */
  lemma {:induction false} CellsExactly(value: seq<byte>, at: nat, count: nat)
    requires at + 4 * count <= |value|
    ensures CellsToU32(value, at, count)
         == if Number(value, at, count) <= U32_MAX then Number(value, at, count) else 0
    ensures Number(value, at, count) < Pow32(count)
    decreases count
  {
    hide ReadBe;
    if count > 0 {
      var x, rest := ReadBe(value, at), Number(value, at + 4, count - 1);
      CellsExactly(value, at + 4, count - 1);
      Above(x, Pow32(count - 1), rest);
      if count > 1 && x > 0 {
        assert Pow32(count - 1) >= 0x1_0000_0000 by {
          assert Pow32(count - 1) == 0x1_0000_0000 * Pow32(count - 2);
        }
      }
    }
  }

  lemma Above(x: u32, p: nat, rest: nat)
    requires rest < p
    ensures x * p + rest < 0x1_0000_0000 * p && (x > 0 ==> x * p + rest >= p) && (x == 0 ==> x * p == 0)
  {
    assert x * p <= 0xFFFF_FFFF * p;
    if x > 0 {
      assert x * p >= 1 * p;
    }
  }

  /** A reg property that holds both numbers gives them, unless the size is none or too large. */
  lemma MemoryExactly(value: seq<byte>, addressCells: u32, sizeCells: u32)
    requires 4 * ((addressCells as int) + sizeCells) <= |value| && 4 * ((addressCells as int) + sizeCells) <= U32_MAX
    ensures var base, size := Number(value, 0, addressCells), Number(value, 4 * addressCells, sizeCells);
            MemoryRange(value, addressCells, sizeCells)
              == if 0 < size <= U32_MAX then Some((if base <= U32_MAX then base else 0, size)) else None
  {
    hide CellsToU32, Number;
    CellsExactly(value, 0, addressCells);
    CellsExactly(value, 4 * addressCells, sizeCells);
  }

  // ---- Tokens ----

  function BeginNode(c: Scan, name: seq<byte>): Scan {
    var two := c.depth + 1 == 2;
    c.(depth := c.depth + 1, inMemory := two && Matches(name, MEMORY), inEmu68 := two && name == EMU68,
       inChosen := two && name == CHOSEN)
  }

  function EndNode(c: Scan): Scan
    requires c.depth > 0
  {
    (if c.depth == 2 then c.(inMemory := false, inEmu68 := false, inChosen := false) else c).(depth := c.depth - 1)
  }

  function SeeProp(c: Scan, name: seq<byte>, value: seq<byte>): Scan {
    if c.depth == 1 && |value| == 4 then
      if name == ADDRESS_CELLS then c.(addressCells := ReadBe(value, 0))
      else if name == SIZE_CELLS then c.(sizeCells := ReadBe(value, 0))
      else c
    else if c.inEmu68 && name == HOST_MEM && |value| >= 8 then
      c.(found := c.found.(hostMemEnd := Some(ReadBe(value, 4))))
    else if c.inMemory && name == REG && |value| >= Wrap(Wrap(c.addressCells + c.sizeCells) * 4) then
      match MemoryRange(value, c.addressCells, c.sizeCells)
      case None => c
      case Some(range) => c.(found := c.found.(memory := Some(range)))
    else if c.inChosen && name == BOOTARGS && value != [] then c.(found := c.found.(bootargs := Some(value)))
    else c
  }

  /** The loop of parse_fdt from byte at. */
  function ScanFrom(s: seq<byte>, strings: seq<byte>, at: nat, c: Scan): Found
    decreases |s| - at
  {
    if at + 4 > |s| then c.found
    else
      var token := ReadBe(s, at);
      if token == BEGIN_NODE then
        var e := NameEnd(s, at + 4);
        if e == |s| then c.found
        else ScanFrom(s, strings, at + 4 + RoundUp(e - (at + 4) + 1, 4), BeginNode(c, s[at + 4..e]))
      else if token == END_NODE then
        if c.depth == 0 then c.found else ScanFrom(s, strings, at + 4, EndNode(c))
      else if token == PROP then
        if at + 12 > |s| || at + 12 + ReadBe(s, at + 4) > |s| then c.found
        else
          var length := ReadBe(s, at + 4);
          match StringAt(strings, ReadBe(s, at + 8))
          case None => c.found
          case Some(name) =>
            ScanFrom(s, strings, at + 12 + RoundUp(length, 4),
                     SeeProp(c, name, s[at + 12..at + 12 + length]))
      else if token == NOP then ScanFrom(s, strings, at + 4, c)
      else c.found
  }

  // ---- The scan of flat items ----

  /** Every property name is in the strings block. */
  predicate Named(strings: seq<byte>, it: Items) {
    match it
    case Done => true
    case Nop(rest) => Named(strings, rest)
    case Property(p, rest) => StringAt(strings, p.nameOff).Some? && Named(strings, rest)
    case Child(_, items, rest) => Named(strings, items) && Named(strings, rest)
  }

  /** The name of a property; empty when it has none. */
  function NameOf(strings: seq<byte>, p: Prop): seq<byte> {
    match StringAt(strings, p.nameOff)
    case None => []
    case Some(name) => name
  }

  /** What scanning the items of a node does to the state. */
  function RunItems(strings: seq<byte>, it: Items, c: Scan): (r: Scan)
    requires c.depth > 0
    ensures r.depth == c.depth - 1
  {
    match it
    case Done => EndNode(c)
    case Nop(rest) => RunItems(strings, rest, c)
    case Property(p, rest) => RunItems(strings, rest, SeeProp(c, NameOf(strings, p), p.value))
    case Child(name, items, rest) => RunItems(strings, rest, RunItems(strings, items, BeginNode(c, name)))
  }

  lemma ScanAtDone(s: seq<byte>, strings: seq<byte>, at: nat, c: Scan)
    requires c.depth > 0 && Has(s, at, BeBytes(END_NODE))
    ensures ScanFrom(s, strings, at, c) == ScanFrom(s, strings, at + 4, EndNode(c))
  {
    hide EndNode;
    HasWord(s, at, END_NODE);
  }

  lemma ScanAtNop(s: seq<byte>, strings: seq<byte>, at: nat, c: Scan)
    requires Has(s, at, BeBytes(NOP))
    ensures ScanFrom(s, strings, at, c) == ScanFrom(s, strings, at + 4, c)
  {
    HasWord(s, at, NOP);
  }

  lemma ScanAtProp(s: seq<byte>, strings: seq<byte>, at: nat, p: Prop, c: Scan)
    requires |p.value| <= U32_MAX && Has(s, at, FlatProp(p)) && StringAt(strings, p.nameOff).Some?
    ensures ScanFrom(s, strings, at, c)
              == ScanFrom(s, strings, at + |FlatProp(p)|, SeeProp(c, NameOf(strings, p), p.value))
  {
    hide SeeProp, FlatProp, RoundUp, ReadBe, StringAt;
    HasProp(s, at, p);
  }

  lemma ScanAtBegin(s: seq<byte>, strings: seq<byte>, at: nat, name: seq<byte>, c: Scan)
    requires 0 !in name && Has(s, at, BeBytes(BEGIN_NODE)) && Has(s, at + 4, NameBytes(name))
    ensures ScanFrom(s, strings, at, c) == ScanFrom(s, strings, at + 4 + |NameBytes(name)|, BeginNode(c, name))
  {
    hide BeginNode, RoundUp, ReadBe, NameBytes;
    HasWord(s, at, BEGIN_NODE);
    HasName(s, at + 4, name);
    assert s[at + 4..at + 4 + |name|] == name;
  }

  lemma {:induction false} ScanFlat(s: seq<byte>, strings: seq<byte>, at: nat, it: Items, c: Scan)
    requires WellFormed(it) && Named(strings, it) && Has(s, at, FlatItems(it)) && c.depth > 0
    ensures ScanFrom(s, strings, at, c) == ScanFrom(s, strings, at + |FlatItems(it)|, RunItems(strings, it, c))
    decreases it
  {
    hide BeBytes, ReadBe, NameBytes, FlatProp, ScanFrom, Has, BeginNode, EndNode, SeeProp, StringAt, NameOf;
    match it
    case Done =>
      ScanAtDone(s, strings, at, c);
    case Nop(rest) =>
      HasParts(s, at, BeBytes(NOP), FlatItems(rest));
      ScanAtNop(s, strings, at, c);
      ScanFlat(s, strings, at + 4, rest, c);
    case Property(p, rest) =>
      HasParts(s, at, FlatProp(p), FlatItems(rest));
      ScanAtProp(s, strings, at, p, c);
      PropDepth(c, NameOf(strings, p), p.value);
      ScanFlat(s, strings, at + |FlatProp(p)|, rest, SeeProp(c, NameOf(strings, p), p.value));
    case Child(name, items, rest) =>
      AtChild(s, at, name, FlatItems(items), FlatItems(rest));
      HasParts(s, at, BeBytes(BEGIN_NODE), NameBytes(name) + (FlatItems(items) + FlatItems(rest)));
      ScanAtBegin(s, strings, at, name, c);
      BeginDepth(c, name);
      var inner := at + 4 + |NameBytes(name)|;
      ScanFlat(s, strings, inner, items, BeginNode(c, name));
      ScanFlat(s, strings, inner + |FlatItems(items)|, rest, RunItems(strings, items, BeginNode(c, name)));
  }

  lemma PropDepth(c: Scan, name: seq<byte>, value: seq<byte>)
    ensures SeeProp(c, name, value).depth == c.depth
  {
  }

  lemma BeginDepth(c: Scan, name: seq<byte>)
    ensures BeginNode(c, name).depth == c.depth + 1
  {
  }

  // ---- The scan of the tree ----

  function PropsRun(strings: seq<byte>, ps: seq<Prop>, c: Scan): (r: Scan)
    ensures r.depth == c.depth
  {
    if ps == [] then c else PropsRun(strings, ps[1..], SeeProp(c, NameOf(strings, ps[0]), ps[0].value))
  }

  /** A node directly under the root: only its own properties are looked at. */
  function KidRun(strings: seq<byte>, kid: Node, c: Scan): Scan
    requires c.depth == 1
  {
    Left(PropsRun(strings, kid.props, BeginNode(c, kid.name)))
  }

  function Left(c: Scan): Scan {
    c.(depth := 1, inMemory := false, inEmu68 := false, inChosen := false)
  }

  function KidsRun(strings: seq<byte>, kids: seq<Node>, c: Scan): (r: Scan)
    requires c.depth == 1
    ensures r.depth == 1
  {
    if kids == [] then c else KidsRun(strings, kids[1..], KidRun(strings, kids[0], c))
  }

  predicate Outside(c: Scan) {
    !c.inMemory && !c.inEmu68 && !c.inChosen
  }

  /** Properties come before children, as the specification of the structure block demands. */
  predicate Ordered(it: Items) {
    match it
    case Done => true
    case Nop(rest) => Ordered(rest)
    case Property(_, rest) => Ordered(rest)
    case Child(_, items, rest) => Ordered(items) && Ordered(rest) && Props(rest) == []
  }

  /** Below the second level nothing is seen. */
  lemma {:induction false} DeepNothing(strings: seq<byte>, it: Items, c: Scan)
    requires c.depth >= 3 && Outside(c)
    ensures RunItems(strings, it, c) == c.(depth := c.depth - 1)
    decreases it
  {
    hide Matches, CellsToU32, NameOf, MemoryRange;
    match it
    case Done =>
    case Nop(rest) => DeepNothing(strings, rest, c);
    case Property(p, rest) =>
      assert SeeProp(c, NameOf(strings, p), p.value) == c;
      DeepNothing(strings, rest, c);
    case Child(name, items, rest) =>
      DeepNothing(strings, items, BeginNode(c, name));
      DeepNothing(strings, rest, c);
  }

  /** A node of the second level, its properties before its children. */
  lemma {:induction false} NodeRun(strings: seq<byte>, it: Items, c: Scan)
    requires c.depth == 2 && Ordered(it)
    ensures RunItems(strings, it, c) == Left(PropsRun(strings, Props(it), c))
    decreases it
  {
    hide Matches, SeeProp, NameOf;
    match it
    case Done =>
    case Nop(rest) => NodeRun(strings, rest, c);
    case Property(p, rest) =>
      PropDepth(c, NameOf(strings, p), p.value);
      NodeRun(strings, rest, SeeProp(c, NameOf(strings, p), p.value));
      assert ([p] + Props(rest))[1..] == Props(rest);
    case Child(name, items, rest) =>
      DeepNothing(strings, items, BeginNode(c, name));
      NodeRun(strings, rest, c.(inMemory := false, inEmu68 := false, inChosen := false));
  }

  /** The root: its properties, then its children one by one. */
  lemma {:induction false} RootRun(strings: seq<byte>, it: Items, c: Scan)
    requires c.depth == 1 && Outside(c) && Ordered(it)
    ensures RunItems(strings, it, c) == KidsRun(strings, Kids(it), PropsRun(strings, Props(it), c)).(depth := 0)
    decreases it
  {
    hide Matches, SeeProp, NameOf, BeginNode;
    match it
    case Done =>
    case Nop(rest) => RootRun(strings, rest, c);
    case Property(p, rest) =>
      PropDepth(c, NameOf(strings, p), p.value);
      PropOutside(c, NameOf(strings, p), p.value);
      RootRun(strings, rest, SeeProp(c, NameOf(strings, p), p.value));
      assert ([p] + Props(rest))[1..] == Props(rest);
    case Child(name, items, rest) =>
      BeginDepth(c, name);
      NodeRun(strings, items, BeginNode(c, name));
      var kid := Node(name, Props(items), Kids(items));
      RootRun(strings, rest, KidRun(strings, kid, c));
      assert ([kid] + Kids(rest))[1..] == Kids(rest);
  }

  lemma PropOutside(c: Scan, name: seq<byte>, value: seq<byte>)
    requires Outside(c)
    ensures Outside(SeeProp(c, name, value))
  {
  }
}
