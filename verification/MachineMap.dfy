/** The region table as it is filled at boot, and the two maps it can be filled with. */
module MachineMap {
  import opened Bytes
  import opened Regions

  const DOMAIN_SIZE: u32 := 0x100_0000
  const VECTOR_SIZE: u32 := 0x1000
  const CHIP_RAM_SIZE: u32 := 0x20_0000
  const CIA_BASE: u32 := 0xBF_D000
  const CIA_SIZE: u32 := 0x2000
  const RTC_BASE: u32 := 0xDC_0000
  const RTC_SIZE: u32 := 0x1_0000
  const CUSTOM_BASE: u32 := 0xDF_F000
  const CUSTOM_SIZE: u32 := 0x1000

  function PlainMap(): seq<Region> {
    [Region(VECTOR_SIZE, DOMAIN_SIZE - VECTOR_SIZE, Unmapped, 0)]
  }

  function ClassicMap(): seq<Region> {
    [Region(VECTOR_SIZE, CHIP_RAM_SIZE - VECTOR_SIZE, Direct, VECTOR_SIZE),
     Region(CHIP_RAM_SIZE, CIA_BASE - CHIP_RAM_SIZE, Unmapped, 0),
     Region(CIA_BASE, CIA_SIZE, External, 0),
     Region(CIA_BASE + CIA_SIZE, RTC_BASE - (CIA_BASE + CIA_SIZE), Unmapped, 0),
     Region(RTC_BASE, RTC_SIZE, External, 0),
     Region(RTC_BASE + RTC_SIZE, CUSTOM_BASE - (RTC_BASE + RTC_SIZE), Unmapped, 0),
     Region(CUSTOM_BASE, CUSTOM_SIZE, External, 0),
     Region(CUSTOM_BASE + CUSTOM_SIZE, DOMAIN_SIZE - (CUSTOM_BASE + CUSTOM_SIZE), Unmapped, 0)]
  }

  function VectorPage(trapped: bool): Region {
    Region(0, VECTOR_SIZE, if trapped then External else Direct, 0)
  }

  /** machine_setup_memory: one map, then the page both agree on. */
  function BootRegions(rigel: bool, trapped: bool): seq<Region> {
    (if rigel then ClassicMap() else PlainMap()) + [VectorPage(trapped)]
  }

  /** Regions one behind the other, from lo to hi. */
  predicate Chain(rs: seq<Region>, lo: nat, hi: nat) {
    if rs == [] then lo == hi
    else rs[0].base == lo && rs[0].size > 0 && Chain(rs[1..], lo + rs[0].size, hi)
  }

  lemma {:induction false} ChainCovers(rs: seq<Region>, lo: nat, hi: nat, address: u32)
    requires Chain(rs, lo, hi)
    ensures lo <= address < hi <==> exists r :: r in rs && Contains(r, address)
    ensures lo <= hi
  {
    if rs != [] {
      ChainCovers(rs[1..], lo + rs[0].size, hi, address);
      if Contains(rs[0], address) {
        assert rs[0] in rs;
      }
      if exists r :: r in rs[1..] && Contains(r, address) {
        var r :| r in rs[1..] && Contains(r, address);
        assert r in rs;
      }
    }
  }

  lemma {:induction false} ChainApart(rs: seq<Region>, lo: nat, hi: nat, i: nat, j: nat)
    requires Chain(rs, lo, hi) && i < j < |rs|
    ensures rs[i].base + rs[i].size <= rs[j].base
    decreases i
  {
    if i > 0 {
      ChainApart(rs[1..], lo + rs[0].size, hi, i - 1, j - 1);
    } else {
      ChainFrom(rs[1..], lo + rs[0].size, hi, j - 1);
    }
  }

  lemma {:induction false} ChainFrom(rs: seq<Region>, lo: nat, hi: nat, j: nat)
    requires Chain(rs, lo, hi) && j < |rs|
    ensures lo <= rs[j].base && rs[j].base + rs[j].size <= hi
  {
    ChainCovers(rs[1..], lo + rs[0].size, hi, 0);
    if j > 0 {
      ChainFrom(rs[1..], lo + rs[0].size, hi, j - 1);
    }
  }

  /** A chain of whole pages below the top is accepted region by region. */
  lemma {:induction false} ChainAccepted(rs: seq<Region>, lo: nat, hi: nat, n: nat)
    requires Chain(rs, lo, hi) && hi <= U32_MAX && n <= |rs| <= CAPACITY
    requires forall r <- rs :: WholePages(r)
    ensures InstallAll(EMPTY, rs[..n]).regions == rs[..n]
    decreases n
  {
    hide WholePages;
    if n > 0 {
      ChainAccepted(rs, lo, hi, n - 1);
      var t := InstallAll(EMPTY, rs[..n - 1]);
      assert rs[..n][..n - 1] == rs[..n - 1] && rs[..n][n - 1] == rs[n - 1];
      forall k | k in t.regions
        ensures !Overlaps(rs[n - 1], k)
      {
        var i :| 0 <= i < n - 1 && rs[..n - 1][i] == k;
        EarlierApart(rs, lo, hi, i, n - 1);
      }
    }
  }

  lemma EarlierApart(rs: seq<Region>, lo: nat, hi: nat, i: nat, j: nat)
    requires Chain(rs, lo, hi) && hi <= U32_MAX && i < j < |rs|
    ensures !Overlaps(rs[j], rs[i])
  {
    ChainApart(rs, lo, hi, i, j);
    ChainFrom(rs, lo, hi, i);
    ChainFrom(rs, lo, hi, j);
  }

  lemma PlainChain()
    ensures Chain(PlainMap(), VECTOR_SIZE, DOMAIN_SIZE) && forall r <- PlainMap() :: WholePages(r)
  {
    assert PlainMap()[1..] == [];
  }

  /** The base of each region of the classic map is the end of the one before; the last ends with the domain. */
  function ClassicStart(k: nat): nat
    requires k <= 8
  {
    if k == 0 then VECTOR_SIZE else if k == 1 then CHIP_RAM_SIZE else if k == 2 then CIA_BASE
    else if k == 3 then CIA_BASE + CIA_SIZE else if k == 4 then RTC_BASE else if k == 5 then RTC_BASE + RTC_SIZE
    else if k == 6 then CUSTOM_BASE else if k == 7 then CUSTOM_BASE + CUSTOM_SIZE else DOMAIN_SIZE
  }

  lemma ClassicRegion(k: nat)
    requires k < 8
    ensures |ClassicMap()| == 8
    ensures var r := ClassicMap()[k];
            r.base == ClassicStart(k) && r.size > 0 && r.base + r.size == ClassicStart(k + 1) && WholePages(r)
  {
  }

  lemma {:induction false} ClassicChainFrom(k: nat)
    requires k <= 8
    ensures |ClassicMap()| == 8 && Chain(ClassicMap()[k..], ClassicStart(k), DOMAIN_SIZE)
    decreases 8 - k
  {
    hide ClassicMap, ClassicStart;
    ClassicRegion(if k < 8 then k else 7);
    ClassicEnds();
    if k < 8 {
      ClassicChainFrom(k + 1);
    }
  }

  lemma ClassicEnds()
    ensures ClassicStart(0) == VECTOR_SIZE && ClassicStart(8) == DOMAIN_SIZE
  {
  }

  lemma ClassicChain()
    ensures Chain(ClassicMap(), VECTOR_SIZE, DOMAIN_SIZE) && forall r <- ClassicMap() :: WholePages(r)
  {
    hide ClassicMap, WholePages, Chain;
    ClassicEnds();
    ClassicChainFrom(0);
    assert ClassicMap()[0..] == ClassicMap();
    forall k | 0 <= k < 8
      ensures WholePages(ClassicMap()[k])
    {
      ClassicRegion(k);
    }
  }

  /** Either map with the vector page covers the 24-bit domain: every address of it is in one region, no other is. */
  lemma BootMapTiles(rigel: bool, trapped: bool, address: u32)
    ensures var t := InstallAll(EMPTY, BootRegions(rigel, trapped));
            && t.regions == BootRegions(rigel, trapped) && Sound(t)
            && (address < DOMAIN_SIZE <==> Find(t.regions, address).Some?)
            && (forall i: nat, j: nat :: i < j < |t.regions| ==> Disjoint(t.regions[i], t.regions[j]))
  {
    hide Sound, WholePages, Contains;
    var entries := if rigel then ClassicMap() else PlainMap();
    PlainChain();
    ClassicChain();
    assert |if rigel then ClassicMap() else PlainMap()| <= 8;
    hide ClassicMap, PlainMap;
    MapThenVectors(entries, trapped);
    MapCovers(entries, trapped, address);
  }

  /** What an address of the domain is, with the chipset and without. */
  function KindOf(rigel: bool, trapped: bool, address: u32): Kind {
    if address < 0x1000 then if trapped then External else Direct
    else if !rigel then Unmapped
    else if address < 0x20_0000 then Direct
    else if 0xBF_D000 <= address < 0xBF_F000 || 0xDC_0000 <= address < 0xDD_0000 || 0xDF_F000 <= address < 0xE0_0000
    then External
    else Unmapped
  }

  /** Every address of the domain is of that kind, and chip memory lies where its address says. */
  lemma BootMapKinds(rigel: bool, trapped: bool, address: u32)
    requires address < 0x100_0000
    ensures var t := InstallAll(EMPTY, BootRegions(rigel, trapped));
            && Find(t.regions, address).Some?
            && var r := Find(t.regions, address).value;
            && r.kind == KindOf(rigel, trapped, address)
            && (r.kind == Direct ==> r.hostPhys + (address - r.base) == address)
  {
    BootMapTiles(rigel, trapped, address);
    FindContains(BootRegions(rigel, trapped), address);
    var r := Find(BootRegions(rigel, trapped), address).value;
    hide Find, InstallAll, ClassicMap, PlainMap;
    assert Contains(r, address) && r in BootRegions(rigel, trapped);
    if r != VectorPage(trapped) {
      if rigel {
        ClassicKinds(r, address);
      } else {
        PlainKinds(r, address);
      }
    }
  }

  lemma PlainKinds(r: Region, address: u32)
    requires r in PlainMap() && Contains(r, address)
    ensures 0x1000 <= address && r.kind == Unmapped
  {
  }

  lemma ClassicKinds(r: Region, address: u32)
    requires r in ClassicMap() && Contains(r, address)
    ensures 0x1000 <= address && r.kind == KindOf(true, false, address)
    ensures r.kind == Direct ==> r.hostPhys == r.base
  {
    var k :| 0 <= k < 8 && ClassicMap()[k] == r;
  }

  lemma VectorsClear(entries: seq<Region>, trapped: bool)
    requires Chain(entries, VECTOR_SIZE, DOMAIN_SIZE)
    ensures forall r <- entries :: !Overlaps(VectorPage(trapped), r) && Ends(r)
    ensures WholePages(VectorPage(trapped)) && Ends(VectorPage(trapped))
  {
    hide Overlaps, Chain;
    forall r | r in entries
      ensures !Overlaps(VectorPage(trapped), r) && Ends(r)
    {
      var i :| 0 <= i < |entries| && entries[i] == r;
      ChainFrom(entries, VECTOR_SIZE, DOMAIN_SIZE, i);
      BelowAll(VectorPage(trapped), r);
    }
  }

  lemma MapThenVectors(entries: seq<Region>, trapped: bool)
    requires Chain(entries, VECTOR_SIZE, DOMAIN_SIZE) && (forall r <- entries :: WholePages(r)) && |entries| <= 8
    ensures var t := InstallAll(EMPTY, entries + [VectorPage(trapped)]);
            t.regions == entries + [VectorPage(trapped)] && Sound(t) && Apart(t.regions)
  {
    hide WholePages, Overlaps, Disjoint, Chain, VectorPage, Sound, Ends, MapOf, Apart, InstallAll;
    var v := VectorPage(trapped);
    ChainAccepted(entries, VECTOR_SIZE, DOMAIN_SIZE, |entries|);
    assert entries[..|entries|] == entries;
    VectorsClear(entries, trapped);
    InstallSnoc(EMPTY, entries, v);
    assert forall r <- entries + [v] :: Ends(r);
    NothingSound();
    InstallsKeep(EMPTY, entries + [v]);
    SoundApart(InstallAll(EMPTY, entries + [v]));
  }

  lemma InstallSnoc(t: Table, rs: seq<Region>, r: Region)
    ensures InstallAll(t, rs + [r]) == Install(InstallAll(t, rs), r)
  {
    assert (rs + [r])[..|rs|] == rs;
  }

  lemma NothingSound()
    ensures Sound(EMPTY)
  {
  }

  lemma SoundApart(t: Table)
    requires Sound(t)
    ensures Apart(t.regions)
  {
  }

  lemma BelowAll(v: Region, r: Region)
    requires v.base == 0 && v.size == VECTOR_SIZE && VECTOR_SIZE <= r.base && r.base + r.size <= DOMAIN_SIZE
    ensures !Overlaps(v, r)
  {
  }

  lemma MapCovers(entries: seq<Region>, trapped: bool, address: u32)
    requires Chain(entries, VECTOR_SIZE, DOMAIN_SIZE)
    ensures address < DOMAIN_SIZE <==> Find(entries + [VectorPage(trapped)], address).Some?
  {
    hide Chain;
    var rs, v := entries + [VectorPage(trapped)], VectorPage(trapped);
    ChainCovers(entries, VECTOR_SIZE, DOMAIN_SIZE, address);
    FindContains(rs, address);
    assert v in rs && forall r <- entries :: r in rs;
    if Find(rs, address).Some? {
      var r := Find(rs, address).value;
      assert r in entries || r == v;
    }
  }

  // ---- The table as it runs ----

  class RegionTable {
    var regions: seq<Region>
    var mmu: seq<Mapping>

    ghost function Abs(): Table
      reads this
    {
      Table(regions, mmu)
    }

    constructor ()
      ensures Abs() == EMPTY
    {
      regions, mmu := [], [];
    }

    /** machine_region_install: false refuses and changes nothing. */
    method InstallRegion(r: Region) returns (ok: bool)
      modifies this
      ensures ok == Accepts(old(Abs()), r) && Abs() == Install(old(Abs()), r)
      ensures old(Sound(Abs())) && Ends(r) ==> Sound(Abs())
    {
      hide Sound, Overlaps;
      if Sound(Abs()) && Ends(r) {
        InstallKeeps(Abs(), r);
      }
      if r.size == 0 || r.base % PAGE != 0 || r.size % PAGE != 0 {
        return false;
      }
      var i := 0;
      while i < |regions|
        invariant 0 <= i <= |regions| && Abs() == old(Abs())
        invariant forall k :: 0 <= k < i ==> !Overlaps(r, regions[k])
      {
        if Overlaps(r, regions[i]) {
          assert regions[i] in regions;
          return false;
        }
        i := i + 1;
      }
      if |regions| == CAPACITY {
        return false;
      }
      regions := regions + [r];
      mmu := mmu + [MapOf(r)];
      ok := true;
    }

    /** machine_region_find. */
    method FindRegion(address: u32) returns (found: Option<Region>)
      ensures found == Find(regions, address)
    {
      hide Contains;
      var i := 0;
      while i < |regions|
        invariant 0 <= i <= |regions| && Find(regions, address) == Find(regions[i..], address)
      {
        assert regions[i..][1..] == regions[i + 1..];
        if Contains(regions[i], address) {
          return Some(regions[i]);
        }
        i := i + 1;
      }
      found := None;
    }

    /** machine_region_classify. */
    method ClassifyAccess(address: u32, size: u32) returns (found: Option<Region>, fit: Fit)
      ensures (found, fit) == Classify(regions, address, size)
    {
      found := FindRegion(address);
      if found.None? {
        return None, Nowhere;
      }
      var offset := address - found.value.base;
      FindContains(regions, address);
      if size == 0 || size > found.value.size - offset {
        return found, Straddles;
      }
      fit := Inside;
    }

    /** machine_setup_memory on an empty table: nothing is refused, and the domain is tiled. */
    method SetupMemory(rigel: bool, trapped: bool)
      requires Abs() == EMPTY
      modifies this
      ensures Abs() == InstallAll(EMPTY, BootRegions(rigel, trapped))
      ensures regions == BootRegions(rigel, trapped) && Sound(Abs())
    {
      hide Sound, Install, ClassicMap, PlainMap, Accepts;
      BootMapTiles(rigel, trapped, 0);
      var entries := if rigel then ClassicMap() else PlainMap();
      var i := 0;
      assert entries[..0] == [];
      while i < |entries|
        invariant 0 <= i <= |entries| && Abs() == InstallAll(EMPTY, entries[..i])
      {
        assert entries[..i + 1][..i] == entries[..i];
        var ok := InstallRegion(entries[i]);
        i := i + 1;
      }
      var v := VectorPage(trapped);
      assert entries[..|entries|] == entries && (entries + [v])[..|entries|] == entries;
      var ok := InstallRegion(v);
    }
  }
}
