/** The machine's region table and the MMU state it drives: one description, two consumers. */
module Regions {
  import opened Bytes

  const CAPACITY: nat := 32
  const PAGE: u32 := 0x1000

  datatype Kind = Direct | External | Unmapped

  datatype Region = Region(base: u32, size: u32, kind: Kind, hostPhys: nat)

  /** What mmu_map was told: guest range, physical start, access flag. */
  datatype Mapping = Mapping(phys: nat, base: u32, size: u32, access: bool)

  datatype Table = Table(regions: seq<Region>, mmu: seq<Mapping>)

  const EMPTY: Table := Table([], [])

  /** An address in a region, by find's comparison of offsets. */
  predicate Contains(r: Region, address: u32) {
    r.base <= address < r.base + r.size
  }

  /** overlaps: the sums are 32-bit. */
  predicate Overlaps(a: Region, b: Region) {
    a.base < Wrap(b.base + b.size) && b.base < Wrap(a.base + a.size)
  }

  predicate Disjoint(a: Region, b: Region) {
    forall address: u32 :: !(Contains(a, address) && Contains(b, address))
  }

  /** Whole pages, and the end of the region is an address. */
  predicate Ends(r: Region) {
    r.base + r.size <= U32_MAX
  }

  predicate WholePages(r: Region) {
    r.size != 0 && r.base % PAGE == 0 && r.size % PAGE == 0
  }

  /** The test means what it says for regions that end below the top of the space. */
  lemma OverlapsExactly(a: Region, b: Region)
    requires Ends(a) && Ends(b) && a.size > 0 && b.size > 0
    ensures Overlaps(a, b) <==> !Disjoint(a, b)
  {
    if Overlaps(a, b) {
      var m := Max(a.base, b.base);
      assert Contains(a, m) && Contains(b, m);
    }
  }

  /** And for no others: a region's tests are all right if and only if its end is an address. */
  lemma OverlapsTrueExactly(a: Region)
    requires WholePages(a)
    ensures (forall b: Region :: b.size > 0 && Ends(b) ==> (Overlaps(a, b) <==> !Disjoint(a, b))) <==> Ends(a)
  {
    if Ends(a) {
      forall b: Region | b.size > 0 && Ends(b)
        ensures Overlaps(a, b) <==> !Disjoint(a, b)
      {
        OverlapsExactly(a, b);
      }
    } else {
      var b := Region(a.base, 1, Direct, 0);
      assert Contains(a, a.base) && Contains(b, a.base) && !Overlaps(a, b);
    }
  }

  // ---- Installing ----

  predicate Accepts(t: Table, r: Region) {
    && WholePages(r)
    && (forall k <- t.regions :: !Overlaps(r, k))
    && |t.regions| != CAPACITY
  }

  /** A trapped region is mapped to itself, without the access flag. */
  function MapOf(r: Region): Mapping {
    Mapping(if r.kind.Direct? then r.hostPhys else r.base, r.base, r.size, r.kind.Direct?)
  }

  function Install(t: Table, r: Region): Table {
    if Accepts(t, r) then Table(t.regions + [r], t.mmu + [MapOf(r)]) else t
  }

  function InstallAll(t: Table, rs: seq<Region>): Table {
    if rs == [] then t else Install(InstallAll(t, rs[..|rs| - 1]), rs[|rs| - 1])
  }

  /** machine_region_find: the first region that contains the address. */
  function Find(rs: seq<Region>, address: u32): Option<Region> {
    if rs == [] then None else if Contains(rs[0], address) then Some(rs[0]) else Find(rs[1..], address)
  }

  datatype Fit = Inside | Straddles | Nowhere

  function Classify(rs: seq<Region>, address: u32, size: u32): (Option<Region>, Fit) {
    match Find(rs, address)
    case None => (None, Nowhere)
    case Some(r) => if size == 0 || size > r.size - (address - r.base) then (Some(r), Straddles) else (Some(r), Inside)
  }

  /** What the MMU does with an access: the newest mapping of the address decides. */
  function Translate(mmu: seq<Mapping>, address: u32): Option<nat> {
    if mmu == [] then None
    else
      var m := mmu[|mmu| - 1];
      if m.base <= address < m.base + m.size then (if m.access then Some(m.phys + (address - m.base)) else None)
      else Translate(mmu[..|mmu| - 1], address)
  }

  // ---- The invariant ----

  predicate Apart(rs: seq<Region>) {
    forall i: nat, j: nat :: i < j < |rs| ==> Disjoint(rs[i], rs[j])
  }

  predicate Sound(t: Table) {
    && |t.regions| <= CAPACITY && |t.mmu| == |t.regions|
    && (forall i :: 0 <= i < |t.regions| ==> WholePages(t.regions[i]) && t.mmu[i] == MapOf(t.regions[i]))
    && (forall r <- t.regions :: Ends(r))
    && Apart(t.regions)
  }

  lemma InstallKeeps(t: Table, r: Region)
    requires Sound(t) && Ends(r)
    ensures Sound(Install(t, r))
  {
    hide Disjoint, Overlaps;
    if Accepts(t, r) {
      forall k | k in t.regions
        ensures Disjoint(k, r)
      {
        OverlapsExactly(r, k);
        DisjointSwap(r, k);
      }
    }
  }

  /**
   * Accepted regions share bytes only where one of them does not end below 2^32,
   * and every such region can be installed twice.
   */
  lemma SharedExactly(a: Region, b: Region)
    requires WholePages(a) && WholePages(b)
    ensures Accepts(Install(EMPTY, a), b) && !Disjoint(a, b) ==> !Ends(a) || !Ends(b)
    ensures Accepts(Install(EMPTY, a), a) && !Disjoint(a, a) <==> !Ends(a)
  {
    var t := Install(EMPTY, a);
    assert t.regions == [a] && t.regions[0] == a;
    assert Contains(a, a.base);
    assert Overlaps(a, a) <==> Ends(a);
    if Ends(a) && Ends(b) {
      OverlapsExactly(b, a);
    }
  }

  lemma DisjointSwap(a: Region, b: Region)
    requires Disjoint(a, b)
    ensures Disjoint(b, a)
  {
  }

  /** After any sequence of accepted and refused installs: whole pages, pairwise disjoint, one mapping each. */
  lemma {:induction false} InstallsKeep(t: Table, rs: seq<Region>)
    requires Sound(t) && forall r <- rs :: Ends(r)
    ensures Sound(InstallAll(t, rs))
  {
    hide Sound, Install;
    if rs != [] {
      InstallsKeep(t, rs[..|rs| - 1]);
      InstallKeeps(InstallAll(t, rs[..|rs| - 1]), rs[|rs| - 1]);
    }
  }

  /** Lookup is unique: it finds a region exactly for the addresses in it, whatever the order of installation. */
  lemma FindUnique(rs: seq<Region>, address: u32, i: nat)
    requires Apart(rs) && i < |rs|
    ensures Contains(rs[i], address) <==> Find(rs, address) == Some(rs[i])
    ensures Contains(rs[i], address) ==> forall k: nat :: k < |rs| && Contains(rs[k], address) ==> k == i
  {
    FindContains(rs, address);
    if Contains(rs[i], address) {
      forall k: nat | k < |rs| && k != i
        ensures !Contains(rs[k], address)
      {
        if k < i {
          assert Disjoint(rs[k], rs[i]);
        } else {
          assert Disjoint(rs[i], rs[k]);
        }
      }
      FindAt(rs, address, i);
    }
  }

  lemma {:induction false} FindContains(rs: seq<Region>, address: u32)
    ensures match Find(rs, address)
            case None => forall r <- rs :: !Contains(r, address)
            case Some(r) => r in rs && Contains(r, address)
  {
    if rs != [] {
      FindContains(rs[1..], address);
    }
  }

  lemma {:induction false} FindAt(rs: seq<Region>, address: u32, i: nat)
    requires i < |rs| && Contains(rs[i], address)
    requires forall k: nat :: k < |rs| && Contains(rs[k], address) ==> k == i
    ensures Find(rs, address) == Some(rs[i])
  {
    hide Contains;
    if i > 0 {
      assert !Contains(rs[0], address);
      forall k: nat | k < |rs| - 1 && Contains(rs[1..][k], address)
        ensures k == i - 1
      {
        assert rs[1..][k] == rs[k + 1];
      }
      FindAt(rs[1..], address, i - 1);
    }
  }

  /** Inside exactly when there is at least one byte and every byte is in one region. */
  lemma ClassifyExactly(t: Table, address: u32, size: u32)
    requires Sound(t)
    ensures Classify(t.regions, address, size).1 == Inside <==>
            size > 0 && exists r :: r in t.regions && r.base <= address && address + size <= r.base + r.size
  {
    var rs := t.regions;
    FindContains(rs, address);
    if size > 0 && exists r :: r in rs && r.base <= address && address + size <= r.base + r.size {
      var r :| r in rs && r.base <= address && address + size <= r.base + r.size;
      var i :| 0 <= i < |rs| && rs[i] == r;
      FindUnique(rs, address, i);
    }
  }

  /** The MMU and the lookup agree: direct access exactly where lookup says so, to host_phys plus the offset. */
  lemma {:induction false} MmuAgrees(t: Table, address: u32)
    requires Sound(t)
    ensures Translate(t.mmu, address) ==
      match Find(t.regions, address)
      case None => None
      case Some(r) => if r.kind.Direct? then Some(r.hostPhys + (address - r.base)) else None
    decreases |t.mmu|
  {
    var n := |t.regions| - 1;
    FindContains(t.regions, address);
    if t.mmu != [] {
      var last := t.regions[n];
      if Contains(last, address) {
        FindUnique(t.regions, address, n);
      } else {
        var front := Table(t.regions[..n], t.mmu[..n]);
        FrontSound(t);
        MmuAgrees(front, address);
        FindSnoc(t.regions[..n], last, address);
        assert t.regions[..n] + [last] == t.regions;
      }
    }
  }

  lemma FrontSound(t: Table)
    requires Sound(t) && t.regions != []
    ensures Sound(Table(t.regions[..|t.regions| - 1], t.mmu[..|t.regions| - 1]))
  {
    hide Disjoint, WholePages;
  }

  lemma {:induction false} FindSnoc(rs: seq<Region>, r: Region, address: u32)
    requires !Contains(r, address)
    ensures Find(rs + [r], address) == Find(rs, address)
  {
    hide Contains;
    if rs == [] {
      assert ([] + [r])[1..] == [];
    } else {
      assert (rs + [r])[1..] == rs[1..] + [r];
      FindSnoc(rs[1..], r, address);
    }
  }
}
