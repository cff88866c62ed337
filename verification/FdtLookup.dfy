/** Lookup in the rebuilt tree, and that the boot-time scan reports the same. */
module FdtLookup {
  import opened Bytes
  import opened Fdt
  import opened FdtScan

  /** dt_find_property. */
  function FindProp(strings: seq<byte>, ps: seq<Prop>, name: seq<byte>): Option<Prop> {
    if ps == [] then None else if NameOf(strings, ps[0]) == name then Some(ps[0]) else FindProp(strings, ps[1..], name)
  }

  /** One step of dt_find_node: the first child the path component matches. */
  function FindChild(kids: seq<Node>, component: seq<byte>): Option<Node> {
    if kids == [] then None
    else if Matches(kids[0].name, component) then Some(kids[0])
    else FindChild(kids[1..], component)
  }

  // ---- The answers by lookup ----

  function CellsProp(strings: seq<byte>, ps: seq<Prop>, name: seq<byte>, default: u32): u32 {
    match FindProp(strings, ps, name)
    case None => default
    case Some(p) => if |p.value| == 4 then ReadBe(p.value, 0) else default
  }

  function MemoryOf(strings: seq<byte>, root: Node): Option<(u32, u32)> {
    match FindChild(root.children, MEMORY)
    case None => None
    case Some(m) =>
      match FindProp(strings, m.props, REG)
      case None => None
      case Some(p) =>
        MemoryRange(p.value, CellsProp(strings, root.props, ADDRESS_CELLS, 1),
                    CellsProp(strings, root.props, SIZE_CELLS, 1))
  }

  function BootargsOf(strings: seq<byte>, root: Node): Option<seq<byte>> {
    match FindChild(root.children, CHOSEN)
    case None => None
    case Some(c) =>
      match FindProp(strings, c.props, BOOTARGS)
      case None => None
      case Some(p) => if p.value == [] then None else Some(p.value)
  }

  // ---- Property names and the two nodes are unique ----

  predicate OneProp(strings: seq<byte>, ps: seq<Prop>, name: seq<byte>) {
    forall i: nat, j: nat :: i < j < |ps| && NameOf(strings, ps[i]) == name ==> NameOf(strings, ps[j]) != name
  }

  predicate OneKid(kids: seq<Node>, component: seq<byte>) {
    forall i: nat, j: nat :: i < j < |kids| && Matches(kids[i].name, component) ==> !Matches(kids[j].name, component)
  }

  lemma OnePropTail(strings: seq<byte>, ps: seq<Prop>, name: seq<byte>)
    requires ps != [] && OneProp(strings, ps, name)
    ensures OneProp(strings, ps[1..], name)
    ensures NameOf(strings, ps[0]) == name ==> FindProp(strings, ps[1..], name) == None
  {
    forall i: nat, j: nat | i < j < |ps| - 1 && NameOf(strings, ps[1..][i]) == name
      ensures NameOf(strings, ps[1..][j]) != name
    {
      assert ps[1..][i] == ps[i + 1] && ps[1..][j] == ps[j + 1];
    }
    if NameOf(strings, ps[0]) == name {
      forall i | 0 <= i < |ps| - 1
        ensures NameOf(strings, ps[1..][i]) != name
      {
        assert ps[1..][i] == ps[i + 1];
      }
      NoProp(strings, ps[1..], name);
    }
  }

  lemma {:induction false} NoProp(strings: seq<byte>, ps: seq<Prop>, name: seq<byte>)
    requires forall i :: 0 <= i < |ps| ==> NameOf(strings, ps[i]) != name
    ensures FindProp(strings, ps, name) == None
  {
    if ps != [] {
      NoProp(strings, ps[1..], name);
    }
  }

  lemma OneKidTail(kids: seq<Node>, component: seq<byte>)
    requires kids != [] && OneKid(kids, component)
    ensures OneKid(kids[1..], component)
    ensures Matches(kids[0].name, component) ==> FindChild(kids[1..], component) == None
  {
    hide Matches;
    forall i: nat, j: nat | i < j < |kids| - 1 && Matches(kids[1..][i].name, component)
      ensures !Matches(kids[1..][j].name, component)
    {
      assert kids[1..][i] == kids[i + 1] && kids[1..][j] == kids[j + 1];
    }
    if Matches(kids[0].name, component) {
      forall i | 0 <= i < |kids| - 1
        ensures !Matches(kids[1..][i].name, component)
      {
        assert kids[1..][i] == kids[i + 1];
      }
      NoKid(kids[1..], component);
    }
  }

  lemma {:induction false} NoKid(kids: seq<Node>, component: seq<byte>)
    requires forall i :: 0 <= i < |kids| ==> !Matches(kids[i].name, component)
    ensures FindChild(kids, component) == None
  {
    if kids != [] {
      NoKid(kids[1..], component);
    }
  }

  // ---- The properties of one node ----

  /** Under the root only the two cell counts are taken, from the one property of each name. */
  lemma {:induction false} RootProps(strings: seq<byte>, ps: seq<Prop>, c: Scan)
    requires c.depth == 1 && Outside(c) && OneProp(strings, ps, ADDRESS_CELLS) && OneProp(strings, ps, SIZE_CELLS)
    ensures PropsRun(strings, ps, c) == c.(addressCells := CellsProp(strings, ps, ADDRESS_CELLS, c.addressCells),
                                           sizeCells := CellsProp(strings, ps, SIZE_CELLS, c.sizeCells))
  {
    hide NameOf, MemoryRange;
    if ps != [] {
      OnePropTail(strings, ps, ADDRESS_CELLS);
      OnePropTail(strings, ps, SIZE_CELLS);
      RootProps(strings, ps[1..], SeeProp(c, NameOf(strings, ps[0]), ps[0].value));
    }
  }

  /** What a node's properties may change: the memory range only in a memory node, the arguments only in /chosen. */
  lemma {:induction false} KidProps(strings: seq<byte>, ps: seq<Prop>, c: Scan)
    requires c.depth == 2
    ensures var r := PropsRun(strings, ps, c);
            && r.addressCells == c.addressCells && r.sizeCells == c.sizeCells
            && (!c.inMemory ==> r.found.memory == c.found.memory)
            && (!c.inChosen ==> r.found.bootargs == c.found.bootargs)
  {
    hide NameOf, MemoryRange;
    if ps != [] {
      KidProps(strings, ps[1..], SeeProp(c, NameOf(strings, ps[0]), ps[0].value));
    }
  }

  lemma {:induction false} MemoryProps(strings: seq<byte>, ps: seq<Prop>, c: Scan)
    requires c.depth == 2 && c.inMemory && !c.inEmu68 && !c.inChosen && OneProp(strings, ps, REG)
    ensures PropsRun(strings, ps, c).found.memory ==
      match FindProp(strings, ps, REG)
      case None => c.found.memory
      case Some(p) =>
        match MemoryRange(p.value, c.addressCells, c.sizeCells)
        case None => c.found.memory
        case Some(range) => Some(range)
  {
    hide NameOf, CellsToU32;
    if ps != [] {
      OnePropTail(strings, ps, REG);
      MemoryProps(strings, ps[1..], SeeProp(c, NameOf(strings, ps[0]), ps[0].value));
    }
  }

  lemma {:induction false} ChosenProps(strings: seq<byte>, ps: seq<Prop>, c: Scan)
    requires c.depth == 2 && c.inChosen && !c.inEmu68 && !c.inMemory && OneProp(strings, ps, BOOTARGS)
    ensures PropsRun(strings, ps, c).found.bootargs ==
      match FindProp(strings, ps, BOOTARGS)
      case None => c.found.bootargs
      case Some(p) => if p.value == [] then c.found.bootargs else Some(p.value)
  {
    hide NameOf, MemoryRange;
    if ps != [] {
      OnePropTail(strings, ps, BOOTARGS);
      ChosenProps(strings, ps[1..], SeeProp(c, NameOf(strings, ps[0]), ps[0].value));
    }
  }

  // ---- The children of the root ----

  lemma NamesApart(name: seq<byte>)
    ensures Matches(name, MEMORY) ==> name != EMU68 && name != CHOSEN
    ensures name == CHOSEN ==> name != EMU68 && !Matches(name, MEMORY) && Matches(name, CHOSEN)
  {
    if Matches(name, MEMORY) {
      assert name[0] == MEMORY[0];
    }
  }

  lemma {:induction false} KidsMemory(strings: seq<byte>, kids: seq<Node>, c: Scan)
    requires c.depth == 1 && OneKid(kids, MEMORY)
    requires forall k <- kids :: Matches(k.name, MEMORY) ==> OneProp(strings, k.props, REG)
    ensures KidsRun(strings, kids, c).found.memory ==
      match FindChild(kids, MEMORY)
      case None => c.found.memory
      case Some(m) =>
        match FindProp(strings, m.props, REG)
        case None => c.found.memory
        case Some(p) =>
          match MemoryRange(p.value, c.addressCells, c.sizeCells)
          case None => c.found.memory
          case Some(range) => Some(range)
  {
    hide Matches, MemoryRange, PropsRun, OneProp, OneKid, FindProp;
    if kids != [] {
      var b := BeginNode(c, kids[0].name);
      NamesApart(kids[0].name);
      OneKidTail(kids, MEMORY);
      KidProps(strings, kids[0].props, b);
      if Matches(kids[0].name, MEMORY) {
        MemoryProps(strings, kids[0].props, b);
      }
      KidsMemory(strings, kids[1..], KidRun(strings, kids[0], c));
    }
  }

  lemma {:induction false} KidsBootargs(strings: seq<byte>, kids: seq<Node>, c: Scan)
    requires c.depth == 1 && OneKid(kids, CHOSEN)
    requires forall k <- kids :: Matches(k.name, CHOSEN) ==> k.name == CHOSEN && OneProp(strings, k.props, BOOTARGS)
    ensures KidsRun(strings, kids, c).found.bootargs ==
      match FindChild(kids, CHOSEN)
      case None => c.found.bootargs
      case Some(m) =>
        match FindProp(strings, m.props, BOOTARGS)
        case None => c.found.bootargs
        case Some(p) => if p.value == [] then c.found.bootargs else Some(p.value)
  {
    hide Matches, MemoryRange, PropsRun, OneProp, OneKid, FindProp;
    if kids != [] {
      var b := BeginNode(c, kids[0].name);
      NamesApart(kids[0].name);
      OneKidTail(kids, CHOSEN);
      KidProps(strings, kids[0].props, b);
      if Matches(kids[0].name, CHOSEN) {
        ChosenProps(strings, kids[0].props, b);
      }
      KidsBootargs(strings, kids[1..], KidRun(strings, kids[0], c));
    }
  }

  // ---- The two readers agree ----

  /** A blob with at most one memory node and at most one /chosen, and no property name twice where it matters. */
  predicate Unambiguous(strings: seq<byte>, root: Node) {
    && OneProp(strings, root.props, ADDRESS_CELLS) && OneProp(strings, root.props, SIZE_CELLS)
    && OneKid(root.children, MEMORY) && OneKid(root.children, CHOSEN)
    && (forall k <- root.children :: Matches(k.name, MEMORY) ==> OneProp(strings, k.props, REG))
    && (forall k <- root.children :: Matches(k.name, CHOSEN) ==>
        k.name == CHOSEN && OneProp(strings, k.props, BOOTARGS))
  }

  lemma {:induction false} ScanNops(s: seq<byte>, strings: seq<byte>, at: nat, n: nat, b: seq<byte>, c: Scan)
    requires Has(s, at, Nops(n) + b)
    ensures ScanFrom(s, strings, at, c) == ScanFrom(s, strings, at + |Nops(n)|, c) && Has(s, at + |Nops(n)|, b)
    decreases n
  {
    hide BeBytes, ReadBe, ScanFrom, Has;
    HasParts(s, at, Nops(n), b);
    if n > 0 {
      assert Nops(n) + b == BeBytes(NOP) + (Nops(n - 1) + b);
      HasParts(s, at, BeBytes(NOP), Nops(n - 1) + b);
      ScanAtNop(s, strings, at, c);
      ScanNops(s, strings, at + 4, n - 1, b, c);
    }
  }

  /**
   * For every well-formed tree flattened with NOPs anywhere: the depth-tracking
   * scan reports the memory range and boot arguments that lookup finds in the
   * tree the other reader builds from the same bytes.
   */
  lemma ScanFindsWhatLookupFinds(s: seq<byte>, strings: seq<byte>, n: nat, name: seq<byte>, it: Items)
    requires WellFormed(it) && Named(strings, it) && Ordered(it) && 0 !in name
    requires Has(s, 0, Nops(n) + (BeBytes(BEGIN_NODE) + (NameBytes(name) + (FlatItems(it) + BeBytes(END)))))
    requires Unambiguous(strings, Node(name, Props(it), Kids(it)))
    ensures ParseBlock(s, 0).Some?
    ensures ScanFrom(s, strings, 0, START).memory == MemoryOf(strings, ParseBlock(s, 0).value)
    ensures ScanFrom(s, strings, 0, START).bootargs == BootargsOf(strings, ParseBlock(s, 0).value)
  {
    hide BeBytes, ReadBe, NameBytes, FlatItems, ScanFrom, Has, ParseBlock, RunItems, Unambiguous, Nops, START;
    var root := Node(name, Props(it), Kids(it));
    var begin, rest := BeBytes(BEGIN_NODE), NameBytes(name) + (FlatItems(it) + BeBytes(END));
    var at := |Nops(n)|;
    ScanNops(s, strings, 0, n, begin + rest, START);
    AtChild(s, at, name, FlatItems(it), BeBytes(END));
    HasParts(s, at, begin, rest);
    ScanAtBegin(s, strings, at, name, START);
    var inner := at + 4 + |NameBytes(name)|;
    ScanRoot(s, strings, inner, it, root);
    Prefix(s, Nops(n), begin, NameBytes(name), FlatItems(it), BeBytes(END));
    ParseUndoesFlatten(s, 0, n, name, it);
    RootStart(name);
  }

  lemma RootStart(name: seq<byte>)
    ensures BeginNode(START, name) == START.(depth := 1)
  {
  }

  lemma Prefix(s: seq<byte>, a: seq<byte>, b: seq<byte>, c: seq<byte>, d: seq<byte>, e: seq<byte>)
    requires Has(s, 0, a + (b + (c + (d + e))))
    ensures Has(s, 0, a + (b + (c + d)))
  {
    assert a + (b + (c + (d + e))) == (a + (b + (c + d))) + e;
    HasParts(s, 0, a + (b + (c + d)), e);
  }

  lemma ScanRoot(s: seq<byte>, strings: seq<byte>, at: nat, it: Items, root: Node)
    requires WellFormed(it) && Named(strings, it) && Ordered(it)
    requires Has(s, at, FlatItems(it)) && Has(s, at + |FlatItems(it)|, BeBytes(END))
    requires root.props == Props(it) && root.children == Kids(it) && Unambiguous(strings, root)
    ensures var f := ScanFrom(s, strings, at, START.(depth := 1));
            f.memory == MemoryOf(strings, root) && f.bootargs == BootargsOf(strings, root)
  {
    hide BeBytes, ReadBe, FlatItems, ScanFrom, Has, RunItems, KidsRun, PropsRun, FindChild, FindProp, MemoryRange;
    var c := START.(depth := 1);
    ScanFlat(s, strings, at, it, c);
    RootRun(strings, it, c);
    RootProps(strings, root.props, c);
    var p := PropsRun(strings, root.props, c);
    KidsMemory(strings, root.children, p);
    KidsBootargs(strings, root.children, p);
    AtEnd(s, strings, at + |FlatItems(it)|, RunItems(strings, it, c));
  }

  lemma AtEnd(s: seq<byte>, strings: seq<byte>, at: nat, c: Scan)
    requires Has(s, at, BeBytes(END))
    ensures ScanFrom(s, strings, at, c) == c.found
  {
    HasWord(s, at, END);
  }

  // ---- The end of host memory ----

  /** The second word of host-mem in /emu68. */
  function HostMemOf(strings: seq<byte>, root: Node): Option<u32> {
    match FindChild(root.children, EMU68)
    case None => None
    case Some(e) =>
      match FindProp(strings, e.props, HOST_MEM)
      case None => None
      case Some(p) => if |p.value| >= 8 then Some(ReadBe(p.value, 4)) else None
  }

  lemma {:induction false} HostProps(strings: seq<byte>, ps: seq<Prop>, c: Scan)
    requires c.depth == 2 && OneProp(strings, ps, HOST_MEM)
    ensures PropsRun(strings, ps, c).found.hostMemEnd ==
      if !c.inEmu68 then c.found.hostMemEnd
      else match FindProp(strings, ps, HOST_MEM)
           case None => c.found.hostMemEnd
           case Some(p) => if |p.value| >= 8 then Some(ReadBe(p.value, 4)) else c.found.hostMemEnd
  {
    hide NameOf, MemoryRange, ReadBe;
    if ps != [] {
      OnePropTail(strings, ps, HOST_MEM);
      HostProps(strings, ps[1..], SeeProp(c, NameOf(strings, ps[0]), ps[0].value));
    }
  }

  lemma {:induction false} KidsHostMem(strings: seq<byte>, kids: seq<Node>, c: Scan)
    requires c.depth == 1 && OneKid(kids, EMU68)
    requires forall k <- kids :: OneProp(strings, k.props, HOST_MEM)
    requires forall k <- kids :: Matches(k.name, EMU68) ==> k.name == EMU68
    ensures KidsRun(strings, kids, c).found.hostMemEnd ==
      match FindChild(kids, EMU68)
      case None => c.found.hostMemEnd
      case Some(e) =>
        match FindProp(strings, e.props, HOST_MEM)
        case None => c.found.hostMemEnd
        case Some(p) => if |p.value| >= 8 then Some(ReadBe(p.value, 4)) else c.found.hostMemEnd
  {
    hide MemoryRange, PropsRun, OneProp, OneKid, FindProp, ReadBe;
    if kids != [] {
      var b := BeginNode(c, kids[0].name);
      OneKidTail(kids, EMU68);
      KidProps(strings, kids[0].props, b);
      HostProps(strings, kids[0].props, b);
      KidsHostMem(strings, kids[1..], KidRun(strings, kids[0], c));
    }
  }

  lemma HostRoot(s: seq<byte>, strings: seq<byte>, at: nat, it: Items, root: Node)
    requires WellFormed(it) && Named(strings, it) && Ordered(it)
    requires Has(s, at, FlatItems(it)) && Has(s, at + |FlatItems(it)|, BeBytes(END))
    requires root.props == Props(it) && root.children == Kids(it)
    requires OneProp(strings, root.props, ADDRESS_CELLS) && OneProp(strings, root.props, SIZE_CELLS)
    requires OneKid(root.children, EMU68) && forall k <- root.children :: Matches(k.name, EMU68) ==> k.name == EMU68
    requires forall k <- root.children :: OneProp(strings, k.props, HOST_MEM)
    ensures ScanFrom(s, strings, at, START.(depth := 1)).hostMemEnd == HostMemOf(strings, root)
  {
    hide BeBytes, ReadBe, FlatItems, ScanFrom, Has, RunItems, KidsRun, PropsRun, FindChild, FindProp, OneProp, OneKid,
         Matches;
    var c := START.(depth := 1);
    ScanFlat(s, strings, at, it, c);
    RootRun(strings, it, c);
    RootProps(strings, root.props, c);
    KidsHostMem(strings, root.children, PropsRun(strings, root.props, c));
    AtEnd(s, strings, at + |FlatItems(it)|, RunItems(strings, it, c));
  }

  /** The scan reports the end of host memory that lookup would find in the tree. */
  lemma ScanFindsHostMem(s: seq<byte>, strings: seq<byte>, n: nat, name: seq<byte>, it: Items)
    requires WellFormed(it) && Named(strings, it) && Ordered(it) && 0 !in name
    requires Has(s, 0, Nops(n) + (BeBytes(BEGIN_NODE) + (NameBytes(name) + (FlatItems(it) + BeBytes(END)))))
    requires OneProp(strings, Props(it), ADDRESS_CELLS) && OneProp(strings, Props(it), SIZE_CELLS)
    requires OneKid(Kids(it), EMU68) && forall k <- Kids(it) :: Matches(k.name, EMU68) ==> k.name == EMU68
    requires forall k <- Kids(it) :: OneProp(strings, k.props, HOST_MEM)
    ensures ParseBlock(s, 0).Some?
    ensures ScanFrom(s, strings, 0, START).hostMemEnd == HostMemOf(strings, ParseBlock(s, 0).value)
  {
    hide BeBytes, ReadBe, NameBytes, FlatItems, ScanFrom, Has, ParseBlock, RunItems, Nops, START, OneProp, OneKid,
         Matches;
    var root := Node(name, Props(it), Kids(it));
    var begin, rest := BeBytes(BEGIN_NODE), NameBytes(name) + (FlatItems(it) + BeBytes(END));
    var at := |Nops(n)|;
    ScanNops(s, strings, 0, n, begin + rest, START);
    AtChild(s, at, name, FlatItems(it), BeBytes(END));
    HasParts(s, at, begin, rest);
    ScanAtBegin(s, strings, at, name, START);
    var inner := at + 4 + |NameBytes(name)|;
    HostRoot(s, strings, inner, it, root);
    RootStart(name);
    Prefix(s, Nops(n), begin, NameBytes(name), FlatItems(it), BeBytes(END));
    ParseUndoesFlatten(s, 0, n, name, it);
  }
}
