/**
 * Buffer objects: handles, references, pins and the account of firmware memory.
 *
 * A store is the driver's table and pool buffers together with who holds what:
 * clients, display blits under way, and the DMA, overlay and displaced pins.
 */
module BoTable {
  import opened Bytes
  import opened Buffers

  /** backed: the firmware allocated the memory. address 0 stands for no mapping. */
  datatype Entry = Entry(refcount: nat, backed: bool, external: bool, address: nat, size: nat)

  const FREE: Entry := Entry(0, false, false, 0, 0)

  /** Sizes of the fifteen pool buffers, 0 when not allocated: five kinds for each of three sets. */
  const POOLS: nat := 15

  const ATTR: nat := 2

  datatype Store = Store(
    table: seq<Entry>, next: nat, memBytes: int, pools: seq<nat>,
    dma: nat, pinned: nat, displaced: nat,
    // who holds references: clients and blits per handle, and the pin a set_overlay call has yet to hand over
    clients: seq<nat>, blits: seq<nat>, replaced: Option<nat>)

  // ---- Handles ----

  /** The i-th candidate: every handle is tried except next itself. */
  function Candidate(next: nat, i: nat): nat {
    (next + i) % MAX_BOS
  }

  predicate Takes(table: seq<Entry>, next: nat, i: nat)
    requires |table| == MAX_BOS
  {
    Candidate(next, i) != 0 && table[Candidate(next, i)].refcount == 0
  }

  /** bo_alloc_handle from candidate i on; 0 when the search fails. */
  function Search(table: seq<Entry>, next: nat, i: nat): (h: nat)
    requires |table| == MAX_BOS && i <= MAX_BOS
    ensures h < MAX_BOS && (h != 0 ==> table[h].refcount == 0)
    decreases MAX_BOS - i
  {
    if i == MAX_BOS then 0
    else if Takes(table, next, i) then Candidate(next, i)
    else Search(table, next, i + 1)
  }

  function FreeHandle(s: Store): (h: nat)
    requires |s.table| == MAX_BOS
    ensures h < MAX_BOS && (h != 0 ==> s.table[h].refcount == 0)
  {
    Search(s.table, s.next, 1)
  }

  lemma {:induction false} SearchFinds(table: seq<Entry>, next: nat, i: nat)
    requires |table| == MAX_BOS && next < MAX_BOS && 1 <= i <= MAX_BOS
    ensures var h := Search(table, next, i);
            && h < MAX_BOS && (h != 0 ==> h != next && table[h].refcount == 0)
            && (h == 0 ==> forall j :: i <= j < MAX_BOS ==> !Takes(table, next, j))
    decreases MAX_BOS - i
  {
    if i < MAX_BOS {
      SearchFinds(table, next, i + 1);
    }
  }

  /** The candidate number of a handle. */
  function Distance(next: nat, h: nat): nat
    requires next < MAX_BOS && h < MAX_BOS
  {
    (h + MAX_BOS - next) % MAX_BOS
  }

  /** 0 means every handle but the last one given out is in use, which may itself be free. */
  lemma FreeHandleExactly(s: Store)
    requires |s.table| == MAX_BOS && s.next < MAX_BOS
    ensures FreeHandle(s) == 0 <==> forall h :: 1 <= h < MAX_BOS && h != s.next ==> s.table[h].refcount > 0
    ensures FreeHandle(s) != 0 ==>
              0 < FreeHandle(s) < MAX_BOS && s.table[FreeHandle(s)].refcount == 0 && FreeHandle(s) != s.next
  {
    hide Search;
    SearchFinds(s.table, s.next, 1);
    if FreeHandle(s) == 0 {
      forall h | 1 <= h < MAX_BOS && h != s.next
        ensures s.table[h].refcount > 0
      {
        var d := Distance(s.next, h);
        assert 1 <= d < MAX_BOS && Candidate(s.next, d) == h;
        assert !Takes(s.table, s.next, d);
      }
    }
  }

  // ---- Accounting ----

  function BoBytes(table: seq<Entry>): nat {
    if table == [] then 0 else BoBytes(table[..|table| - 1]) + Held(table[|table| - 1])
  }

  function Held(e: Entry): nat {
    if e.backed then e.size else 0
  }

  function Sum(sizes: seq<nat>): nat {
    if sizes == [] then 0 else Sum(sizes[..|sizes| - 1]) + sizes[|sizes| - 1]
  }

  lemma {:induction false} BoBytesSet(table: seq<Entry>, h: nat, e: Entry)
    requires h < |table|
    ensures BoBytes(table[h := e]) == BoBytes(table) - Held(table[h]) + Held(e)
    ensures BoBytes(table) >= Held(table[h])
  {
    var n := |table| - 1;
    if h == n {
      assert table[h := e][..n] == table[..n];
    } else {
      BoBytesSet(table[..n], h, e);
      assert table[h := e][..n] == table[..n][h := e];
    }
  }

  lemma {:induction false} SumSet(sizes: seq<nat>, i: nat, v: nat)
    requires i < |sizes|
    ensures Sum(sizes[i := v]) == Sum(sizes) - sizes[i] + v
    ensures Sum(sizes) >= sizes[i]
  {
    var n := |sizes| - 1;
    if i == n {
      assert sizes[i := v][..n] == sizes[..n];
    } else {
      SumSet(sizes[..n], i, v);
      assert sizes[i := v][..n] == sizes[..n][i := v];
    }
  }

  // ---- The invariant ----

  function One(c: bool): nat {
    if c then 1 else 0
  }

  /** Everything that holds a reference to h. */
  function Holders(s: Store, h: nat): nat
    requires |s.clients| == |s.blits| == MAX_BOS && h < MAX_BOS
  {
    s.clients[h] + s.blits[h] + One(s.dma == h) + One(s.pinned == h) + One(s.displaced == h)
        + One(s.replaced == Some(h))
  }

  /** Loose references: taken, but not yet held by anyone named above. */
  predicate EntrySound(s: Store, loose: multiset<nat>, h: nat)
    requires |s.table| == |s.clients| == |s.blits| == MAX_BOS && h < MAX_BOS
  {
    && (h > 0 ==> s.table[h].refcount == Holders(s, h) + loose[h])
    && (h == 0 ==> s.table[h] == FREE && s.clients[h] == s.blits[h] == 0)
    && (s.table[h].refcount == 0 ==> s.table[h] == FREE)
  }

  predicate Shape(s: Store) {
    && |s.table| == |s.clients| == |s.blits| == MAX_BOS && |s.pools| == POOLS
    && s.next < MAX_BOS && s.dma < MAX_BOS && s.pinned < MAX_BOS && s.displaced < MAX_BOS
    && (s.replaced.Some? ==> 0 < s.replaced.value < MAX_BOS)
  }

  predicate Sound(s: Store, loose: multiset<nat>) {
    && Shape(s)
    && (forall h :: 0 <= h < MAX_BOS ==> EntrySound(s, loose, h))
    && s.memBytes == BoBytes(s.table) + Sum(s.pools)
  }

  /** Reference counts are what is held, free entries are blank, the account is what is allocated. */
  predicate Inv(s: Store) {
    Sound(s, multiset{})
  }

  // ---- Operations ----

  function Ref(s: Store, h: nat): Store
    requires h < |s.table|
  {
    s.(table := s.table[h := s.table[h].(refcount := s.table[h].refcount + 1)])
  }

  /** vc4_aros_bo_unref_locked: the last reference frees the memory and clears the entry. */
  function Unref(s: Store, h: nat): Store
    requires |s.table| == MAX_BOS
  {
    if h == 0 || h >= MAX_BOS || s.table[h].refcount == 0 then s
    else if s.table[h].refcount > 1 then s.(table := s.table[h := s.table[h].(refcount := s.table[h].refcount - 1)])
    else s.(table := s.table[h := FREE], memBytes := s.memBytes - Held(s.table[h]))
  }

  /** gpu_mem_reclaim: every pool buffer goes back, attr included. */
  function Reclaim(s: Store): Store {
    s.(pools := seq(|s.pools|, i => 0), memBytes := s.memBytes - Sum(s.pools))
  }

  /** What the firmware answers to the allocations of one call. */
  datatype Alloc = First | Second | Fails

  /** ioctl_create_bo and ioctl_create_shader_bo; address and outcome are the firmware's. 0 is the error return. */
  function Create(s: Store, size: nat, shader: bool, outcome: Alloc, address: nat): (r: (Store, nat))
    requires |s.table| == MAX_BOS && |s.clients| == MAX_BOS
  {
    var h := FreeHandle(s);
    if h == 0 then (s, 0)
    else
      var s1 := s.(next := h);
      if outcome.Fails? then (Reclaim(s1), 0)
      else
        var s2 := if outcome.Second? then Reclaim(s1) else s1;
        if shader && size % 8 != 0 then (s2.(table := s2.table[h := FREE]), 0)
        else
          (s2.(table := s2.table[h := Entry(1, true, false, address, size)], memBytes := s2.memBytes + size,
               clients := s2.clients[h := s2.clients[h] + 1]), h)
  }

  /** An entry that already wraps the scanout page. */
  predicate Wraps(e: Entry, name: nat) {
    e.refcount > 0 && e.external && e.address == name
  }

  function FindPage(table: seq<Entry>, name: nat, h: nat): (r: nat)
    requires h <= |table|
    ensures r == 0 || (h <= r < |table| && Wraps(table[r], name))
    decreases |table| - h
  {
    if h == |table| then 0 else if Wraps(table[h], name) then h else FindPage(table, name, h + 1)
  }

  /** ioctl_gem_open of one of the two announced pages. */
  function Open(s: Store, name: nat, pages: (nat, nat), pageSize: nat): (r: (Store, nat))
    requires |s.table| == MAX_BOS && |s.clients| == MAX_BOS
  {
    if name == 0 || pageSize == 0 || (name != pages.0 && name != pages.1) then (s, 0)
    else
      var page := FindPage(s.table, name, 1);
      if page != 0 then (Ref(s, page).(clients := s.clients[page := s.clients[page] + 1]), page)
      else
        var h := FreeHandle(s);
        if h == 0 then (s, 0)
        else
          (s.(next := h, table := s.table[h := Entry(1, false, true, name, pageSize)],
              clients := s.clients[h := s.clients[h] + 1]), h)
  }

  function Close(s: Store, h: nat): Store
    requires |s.table| == MAX_BOS && |s.clients| == MAX_BOS
  {
    if h == 0 || h >= MAX_BOS || s.table[h].refcount == 0 then s
    else Unref(s, h).(clients := s.clients[h := if s.clients[h] > 0 then s.clients[h] - 1 else 0])
  }

  /** A display blit pins its source for its duration. */
  function BlitBegin(s: Store, h: nat): Store
    requires |s.table| == MAX_BOS && |s.blits| == MAX_BOS
  {
    if h == 0 || h >= MAX_BOS || s.table[h].refcount == 0 then s
    else Ref(s, h).(blits := s.blits[h := s.blits[h] + 1])
  }

  /** A DMA blit hands its pin to the engine and drops the one before; a CPU blit drops its own. */
  function BlitEnd(s: Store, h: nat, usedDma: bool): Store
    requires |s.table| == MAX_BOS && |s.blits| == MAX_BOS && h < MAX_BOS && s.blits[h] > 0
  {
    var t := s.(blits := s.blits[h := s.blits[h] - 1]);
    if usedDma then Unref(t.(dma := h), s.dma) else Unref(t, h)
  }

  /** The unpin of vc4_aros_flip_scanout. */
  function FlipUnpin(s: Store): Store
    requires |s.table| == MAX_BOS
  {
    if s.dma != 0 then Unref(s, s.dma).(dma := 0) else s
  }

  /** vc4_aros_overlay_latch_wait: the displaced page has left the plane. */
  function LatchRetire(s: Store): Store
    requires |s.table| == MAX_BOS
  {
    if s.displaced != 0 then Unref(s, s.displaced).(displaced := 0) else s
  }

  /** The check of vc4_aros_set_overlay: mapped and large enough. */
  predicate Showable(s: Store, h: nat, bytes: nat)
    requires |s.table| == MAX_BOS
  {
    h < MAX_BOS && s.table[h].address != 0 && bytes <= s.table[h].size
  }

  /** Before the plane is switched: the new page is pinned, the old pin is remembered. */
  function SetBegin(s: Store, h: nat): Store
    requires |s.table| == MAX_BOS && h < MAX_BOS
  {
    Ref(s, h).(pinned := h, replaced := if s.pinned != 0 then Some(s.pinned) else None)
  }

  /** After it: refused drops both pins; accepted keeps the old page pinned until its latch. */
  function SetEnd(s: Store, active: bool): Store
    requires |s.table| == MAX_BOS
  {
    var t := s.(replaced := None);
    if !active then
      var u := Unref(t, s.pinned).(pinned := 0);
      if s.replaced.Some? then Unref(u, s.replaced.value) else u
    else if s.replaced.None? then t
    else if s.replaced.value != s.pinned then t.(displaced := s.replaced.value)
    else Unref(t, s.pinned)
  }

  function Clear(s: Store): Store
    requires |s.table| == MAX_BOS
  {
    LatchRetire(if s.pinned != 0 then Unref(s, s.pinned).(pinned := 0) else s)
  }

  /** pool_bo_get: kept when large enough, otherwise replaced; with a quarter of headroom if the firmware can. */
  function PoolGet(s: Store, i: nat, size: nat, outcome: Alloc): Store
    requires i < |s.pools|
  {
    if s.pools[i] >= size && s.pools[i] > 0 then s
    else
      var got :=
        if outcome.First? then RoundUp(size + size / 4, 4096)
        else if outcome.Second? then RoundUp(size, 4096)
        else 0;
      s.(pools := s.pools[i := got], memBytes := s.memBytes - s.pools[i] + got)
  }

  // ---- Every operation keeps it ----

  lemma RefKeeps(s: Store, loose: multiset<nat>, h: nat)
    requires Sound(s, loose) && 0 < h < MAX_BOS && s.table[h].refcount > 0
    ensures Sound(Ref(s, h), loose + multiset{h})
  {
    hide BoBytes, Sum;
    BoBytesSet(s.table, h, s.table[h].(refcount := s.table[h].refcount + 1));
    forall k | 0 <= k < MAX_BOS
      ensures EntrySound(Ref(s, h), loose + multiset{h}, k)
    {
      assert EntrySound(s, loose, k);
    }
  }

  lemma UnrefKeeps(s: Store, loose: multiset<nat>, h: nat)
    requires Sound(s, loose + multiset{h}) && 0 < h < MAX_BOS
    ensures Sound(Unref(s, h), loose) && s.table[h].refcount > 0
  {
    hide BoBytes, Sum;
    assert EntrySound(s, loose + multiset{h}, h);
    BoBytesSet(s.table, h, FREE);
    BoBytesSet(s.table, h, s.table[h].(refcount := s.table[h].refcount - 1));
    forall k | 0 <= k < MAX_BOS
      ensures EntrySound(Unref(s, h), loose, k)
    {
      assert EntrySound(s, loose + multiset{h}, k);
    }
  }

  /** Moving references between holders, table untouched. */
  lemma Rehold(s: Store, loose: multiset<nat>, t: Store, loose': multiset<nat>)
    requires Sound(s, loose) && Shape(t) && t.table == s.table && t.memBytes == s.memBytes && t.pools == s.pools
    requires forall h :: 0 <= h < MAX_BOS ==> Moved(s, loose, t, loose', h)
    ensures Sound(t, loose')
  {
    hide BoBytes, Sum;
    forall h | 0 <= h < MAX_BOS
      ensures EntrySound(t, loose', h)
    {
      assert EntrySound(s, loose, h) && Moved(s, loose, t, loose', h);
    }
  }

  predicate Moved(s: Store, loose: multiset<nat>, t: Store, loose': multiset<nat>, h: nat)
    requires |s.clients| == |s.blits| == |t.clients| == |t.blits| == MAX_BOS && h < MAX_BOS
  {
    && (h > 0 ==> Holders(s, h) + loose[h] == Holders(t, h) + loose'[h])
    && (h == 0 ==> t.clients[h] == s.clients[h] && t.blits[h] == s.blits[h])
  }

  lemma CloseKeeps(s: Store, h: nat)
    requires Inv(s) && (0 < h < MAX_BOS && s.table[h].refcount > 0 ==> s.clients[h] > 0)
    ensures Inv(Close(s, h))
  {
    hide BoBytes, Sum, Unref;
    if 0 < h < MAX_BOS && s.table[h].refcount > 0 {
      var t := s.(clients := s.clients[h := s.clients[h] - 1]);
      Rehold(s, multiset{}, t, multiset{} + multiset{h});
      UnrefKeeps(t, multiset{}, h);
      UnrefFrame(s, h, t);
    }
  }

  /** Unref does not look at the holders. */
  lemma UnrefFrame(s: Store, h: nat, t: Store)
    requires |s.table| == MAX_BOS && t == s.(clients := t.clients, blits := t.blits, dma := t.dma, pinned := t.pinned,
                                             displaced := t.displaced, replaced := t.replaced)
    ensures Unref(t, h) == Unref(s, h).(clients := t.clients, blits := t.blits, dma := t.dma, pinned := t.pinned,
                                        displaced := t.displaced, replaced := t.replaced)
    ensures Unref(s, h) == s.(table := Unref(s, h).table, memBytes := Unref(s, h).memBytes)
  {
  }

  /** A free entry becomes a buffer with one reference. */
  lemma FillKeeps(s: Store, loose: multiset<nat>, h: nat, e: Entry)
    requires Sound(s, loose) && 0 < h < MAX_BOS && s.table[h].refcount == 0 && e.refcount == 1
    ensures Sound(s.(table := s.table[h := e], memBytes := s.memBytes + Held(e)), loose + multiset{h})
  {
    hide BoBytes, Sum;
    var t := s.(table := s.table[h := e], memBytes := s.memBytes + Held(e));
    BoBytesSet(s.table, h, e);
    assert EntrySound(s, loose, h);
    forall k | 0 <= k < MAX_BOS
      ensures EntrySound(t, loose + multiset{h}, k)
    {
      assert EntrySound(s, loose, k);
    }
  }

  lemma {:induction false} SumZero(n: nat)
    ensures Sum(seq(n, i => 0)) == 0
  {
    if n > 0 {
      SumZero(n - 1);
      assert seq(n, i => 0)[..n - 1] == seq(n - 1, i => 0);
    }
  }

  lemma ReclaimKeeps(s: Store)
    requires Inv(s)
    ensures Inv(Reclaim(s))
  {
    hide BoBytes, Sum;
    SumZero(|s.pools|);
    SameEntries(s, Reclaim(s));
  }

  lemma SameEntries(s: Store, t: Store)
    requires Inv(s) && Shape(t) && t == s.(next := t.next, pools := t.pools, memBytes := t.memBytes)
    requires t.memBytes == BoBytes(t.table) + Sum(t.pools)
    ensures Inv(t)
  {
    hide BoBytes, Sum;
    forall h | 0 <= h < MAX_BOS
      ensures EntrySound(t, multiset{}, h)
    {
      assert EntrySound(s, multiset{}, h);
    }
  }

  lemma CreateKeeps(s: Store, size: nat, shader: bool, outcome: Alloc, address: nat)
    requires Inv(s)
    ensures Inv(Create(s, size, shader, outcome, address).0)
  {
    hide BoBytes, Sum, Reclaim, Search;
    var h := FreeHandle(s);
    if h != 0 {
      var s1 := s.(next := h);
      SameEntries(s, s1);
      ReclaimKeeps(s1);
      ReclaimFrame(s1);
      var s2 := if outcome.Second? then Reclaim(s1) else s1;
      assert EntrySound(s2, multiset{}, h);
      assert s2.table[h := FREE] == s2.table;
      var e := Entry(1, true, false, address, size);
      FillKeeps(s2, multiset{}, h, e);
      var t := s2.(table := s2.table[h := e], memBytes := s2.memBytes + size);
      Rehold(t, multiset{} + multiset{h}, t.(clients := t.clients[h := t.clients[h] + 1]), multiset{});
    }
  }

  lemma ReclaimFrame(s: Store)
    ensures Reclaim(s) == s.(pools := Reclaim(s).pools, memBytes := Reclaim(s).memBytes)
  {
  }

  lemma OpenKeeps(s: Store, name: nat, pages: (nat, nat), pageSize: nat)
    requires Inv(s)
    ensures Inv(Open(s, name, pages, pageSize).0)
  {
    hide BoBytes, Sum;
    var page, h := FindPage(s.table, name, 1), FreeHandle(s);
    if page != 0 {
      RefKeeps(s, multiset{}, page);
      var t := Ref(s, page);
      Rehold(t, multiset{} + multiset{page}, t.(clients := t.clients[page := t.clients[page] + 1]), multiset{});
    } else if h != 0 {
      var e := Entry(1, false, true, name, pageSize);
      FillKeeps(s, multiset{}, h, e);
      var t := s.(table := s.table[h := e], memBytes := s.memBytes + Held(e));
      Rehold(t, multiset{} + multiset{h}, t.(next := h, clients := t.clients[h := t.clients[h] + 1]), multiset{});
    }
  }

  lemma BlitKeeps(s: Store, h: nat, usedDma: bool)
    requires Inv(s)
    ensures Inv(BlitBegin(s, h))
    ensures h < MAX_BOS && s.blits[h] > 0 ==> Inv(BlitEnd(s, h, usedDma))
  {
    hide BoBytes, Sum, Unref, Ref;
    if 0 < h < MAX_BOS && s.table[h].refcount > 0 {
      RefKeeps(s, multiset{}, h);
      RefFrame(s, h);
      var t := Ref(s, h);
      Rehold(t, multiset{} + multiset{h}, t.(blits := t.blits[h := t.blits[h] + 1]), multiset{});
    }
    if h < MAX_BOS && s.blits[h] > 0 {
      BlitEndKeeps(s, h, usedDma);
    }
  }

  lemma RefFrame(s: Store, h: nat)
    requires h < |s.table|
    ensures |Ref(s, h).table| == |s.table| && Ref(s, h) == s.(table := Ref(s, h).table)
  {
  }

  lemma BlitEndKeeps(s: Store, h: nat, usedDma: bool)
    requires Inv(s) && h < MAX_BOS && s.blits[h] > 0
    ensures Inv(BlitEnd(s, h, usedDma))
  {
    hide BoBytes, Sum, Unref;
    assert EntrySound(s, multiset{}, h);
    var t := s.(blits := s.blits[h := s.blits[h] - 1]);
    if usedDma {
      var loose := if s.dma != 0 then multiset{s.dma} else multiset{};
      Rehold(s, multiset{}, t.(dma := h), loose);
      if s.dma != 0 {
        assert multiset{} + multiset{s.dma} == loose;
        UnrefKeeps(t.(dma := h), multiset{}, s.dma);
      } else {
        UnrefNothing(t.(dma := h));
      }
    } else {
      Rehold(s, multiset{}, t, multiset{} + multiset{h});
      UnrefKeeps(t, multiset{}, h);
    }
  }

  lemma UnrefNothing(s: Store)
    requires |s.table| == MAX_BOS
    ensures Unref(s, 0) == s
  {
  }

  lemma FlipKeeps(s: Store)
    requires Inv(s)
    ensures Inv(FlipUnpin(s))
  {
    hide BoBytes, Sum, Unref;
    if s.dma != 0 {
      var t := s.(dma := 0);
      Rehold(s, multiset{}, t, multiset{} + multiset{s.dma});
      UnrefKeeps(t, multiset{}, s.dma);
      UnrefFrame(s, s.dma, t);
    }
  }

  lemma LatchKeeps(s: Store)
    requires Inv(s)
    ensures Inv(LatchRetire(s)) && LatchRetire(s).displaced == 0
  {
    hide BoBytes, Sum, Unref;
    if s.displaced != 0 {
      var t := s.(displaced := 0);
      Rehold(s, multiset{}, t, multiset{} + multiset{s.displaced});
      UnrefKeeps(t, multiset{}, s.displaced);
      UnrefFrame(s, s.displaced, t);
    }
  }

  lemma ClearKeeps(s: Store)
    requires Inv(s)
    ensures Inv(Clear(s)) && Clear(s).displaced == 0
  {
    hide BoBytes, Sum, Unref, LatchRetire;
    if s.pinned != 0 {
      var t := s.(pinned := 0);
      Rehold(s, multiset{}, t, multiset{} + multiset{s.pinned});
      UnrefKeeps(t, multiset{}, s.pinned);
      UnrefFrame(s, s.pinned, t);
      LatchKeeps(Unref(s, s.pinned).(pinned := 0));
    } else {
      LatchKeeps(s);
    }
  }

  lemma SetBeginKeeps(s: Store, h: nat)
    requires Inv(s) && s.replaced.None? && h < MAX_BOS && s.table[h].address != 0
    ensures Inv(SetBegin(s, h))
  {
    hide BoBytes, Sum, Ref;
    assert EntrySound(s, multiset{}, h);
    RefKeeps(s, multiset{}, h);
    RefFrame(s, h);
    Rehold(Ref(s, h), multiset{} + multiset{h}, SetBegin(s, h), multiset{});
  }

  lemma SetEndKeeps(s: Store, active: bool)
    requires Inv(s) && s.displaced == 0 && s.pinned != 0
    ensures Inv(SetEnd(s, active))
  {
    hide BoBytes, Sum, Unref;
    var t, p := s.(replaced := None), s.pinned;
    if !active {
      var u := t.(pinned := 0);
      var loose := if s.replaced.Some? then multiset{s.replaced.value} else multiset{};
      Rehold(s, multiset{}, u, loose + multiset{p});
      UnrefKeeps(u, loose, p);
      UnrefFrame(t, p, u);
      if s.replaced.Some? {
        assert multiset{} + multiset{s.replaced.value} == loose;
        UnrefKeeps(Unref(u, p), multiset{}, s.replaced.value);
      }
    } else if s.replaced.None? {
      Rehold(s, multiset{}, t, multiset{});
    } else if s.replaced.value != p {
      Rehold(s, multiset{}, t.(displaced := s.replaced.value), multiset{});
    } else {
      Rehold(s, multiset{}, t, multiset{} + multiset{p});
      UnrefKeeps(t, multiset{}, p);
    }
  }

  lemma PoolKeeps(s: Store, i: nat, size: nat, outcome: Alloc)
    requires Inv(s) && i < POOLS
    ensures Inv(PoolGet(s, i, size, outcome))
    ensures PoolGet(s, i, size, outcome).pools[i] >= size || outcome.Fails?
  {
    hide BoBytes, Sum, RoundUp;
    if !(s.pools[i] >= size && s.pools[i] > 0) {
      var t := PoolGet(s, i, size, outcome);
      SumSet(s.pools, i, t.pools[i]);
      SameEntries(s, t);
    }
  }
}
