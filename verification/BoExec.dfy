/** The buffer-object calls as the driver runs them, on its table. */
module BoExec {
  import opened Bytes
  import opened Buffers
  import opened BoTable
  import opened BoRuns

  class Bos {
    const table: array<Entry>
    var next: nat
    var memBytes: int
    var pools: seq<nat>
    var dma: nat
    var pinned: nat
    var displaced: nat
    ghost var clients: seq<nat>
    ghost var blits: seq<nat>
    ghost var replaced: Option<nat>

    ghost function Abs(): Store
      reads this, table
    {
      Store(table[..], next, memBytes, pools, dma, pinned, displaced, clients, blits, replaced)
    }

    ghost predicate Valid()
      reads this, table
    {
      Inv(Abs())
    }

    /** A driver state with the given pool and holder lists over a new table. */
    constructor (pools: seq<nat>, clients: seq<nat>, blits: seq<nat>)
      ensures table.Length == MAX_BOS && fresh(table) && forall h :: 0 <= h < MAX_BOS ==> table[h] == FREE
      ensures Abs() == Store(table[..], 0, 0, pools, 0, 0, 0, clients, blits, None)
    {
      table := new Entry[MAX_BOS](h => FREE);
      next, memBytes, dma, pinned, displaced := 0, 0, 0, 0, 0;
      this.pools, this.clients, this.blits, replaced := pools, clients, blits, None;
    }

    /** bo_alloc_handle. */
    method AllocHandle() returns (h: nat)
      requires Valid()
      modifies this`next
      ensures h == FreeHandle(old(Abs()))
      ensures Abs() == if h == 0 then old(Abs()) else old(Abs()).(next := h)
    {
      hide Inv;
      InvShape(Abs());
      var i := 1;
      while i < MAX_BOS
        invariant 1 <= i <= MAX_BOS && next == old(next) && table.Length == MAX_BOS
        invariant Search(table[..], next, 1) == Search(table[..], next, i)
      {
        h := (next + i) % MAX_BOS;
        if h != 0 && table[h].refcount == 0 {
          next := h;
          return;
        }
        i := i + 1;
      }
      h := 0;
    }

    /** vc4_aros_bo_unref_locked. */
    method UnrefLocked(h: nat)
      requires table.Length == MAX_BOS
      modifies this`memBytes, table
      ensures Abs() == Unref(old(Abs()), h)
    {
      if h == 0 || h >= MAX_BOS || table[h].refcount == 0 {
        return;
      }
      table[h] := table[h].(refcount := table[h].refcount - 1);
      if table[h].refcount == 0 {
        if table[h].backed {
          memBytes := memBytes - table[h].size;
        }
        table[h] := FREE;
      }
      assert table[..] == old(table[..])[h := table[h]];
    }

    method AddRef(h: nat)
      requires h < table.Length
      modifies table
      ensures Abs() == Ref(old(Abs()), h)
    {
      table[h] := table[h].(refcount := table[h].refcount + 1);
    }

    method ReclaimAll()
      modifies this`memBytes, this`pools
      ensures Abs() == Reclaim(old(Abs()))
    {
      memBytes := memBytes - Sum(pools);
      pools := seq(|pools|, i => 0);
    }

    /** ioctl_create_bo and ioctl_create_shader_bo. */
    method CreateBuffer(size: nat, shader: bool, outcome: Alloc, address: nat) returns (h: nat)
      requires Valid()
      modifies this, table
      ensures Valid() && (Abs(), h) == Create(old(Abs()), size, shader, outcome, address)
    {
      hide Inv, Sound, FreeHandle, Reclaim;
      CreateKeeps(Abs(), size, shader, outcome, address);
      InvShape(Abs());
      h := AllocHandle();
      if h == 0 {
        return;
      }
      if !outcome.First? {
        ReclaimAll();
        if outcome.Fails? {
          return 0;
        }
      }
      if shader && size % 8 != 0 {
        table[h] := FREE;
        return 0;
      }
      memBytes := memBytes + size;
      table[h] := Entry(1, true, false, address, size);
      clients := clients[h := clients[h] + 1];
    }

    /** ioctl_gem_open. */
    method GemOpen(name: nat, pages: (nat, nat), pageSize: nat) returns (h: nat)
      requires Valid()
      modifies this, table
      ensures Valid() && (Abs(), h) == Open(old(Abs()), name, pages, pageSize)
    {
      hide Inv, Sound, FreeHandle;
      OpenKeeps(Abs(), name, pages, pageSize);
      InvShape(Abs());
      if name == 0 || pageSize == 0 || (name != pages.0 && name != pages.1) {
        return 0;
      }
      h := 1;
      while h < MAX_BOS
        invariant 1 <= h <= MAX_BOS && Abs() == old(Abs()) && table.Length == MAX_BOS
        invariant FindPage(table[..], name, 1) == FindPage(table[..], name, h)
      {
        if table[h].refcount > 0 && table[h].external && table[h].address == name {
          AddRef(h);
          clients := clients[h := clients[h] + 1];
          return;
        }
        h := h + 1;
      }
      h := AllocHandle();
      if h == 0 {
        return;
      }
      table[h] := Entry(1, false, true, name, pageSize);
      clients := clients[h := clients[h] + 1];
    }

    /** ioctl_gem_close. */
    method GemClose(h: nat) returns (ok: bool)
      requires Valid() && Enabled(Abs(), CloseBo(h))
      modifies this, table
      ensures Valid() && Abs() == Close(old(Abs()), h) && ok == (0 < h < MAX_BOS && old(Abs()).table[h].refcount > 0)
    {
      hide Inv, Unref;
      CloseKeeps(Abs(), h);
      InvShape(Abs());
      if h == 0 || h >= MAX_BOS || table[h].refcount == 0 {
        return false;
      }
      ghost var s := Abs();
      UnrefFrame(s, h, s);
      UnrefLocked(h);
      clients := clients[h := clients[h] - 1];
      ok := true;
    }

    /** The pin a blit hands to the DMA engine, or drops. */
    method EndBlit(h: nat, usedDma: bool)
      requires Valid() && h < MAX_BOS && Enabled(Abs(), FinishBlit(h, usedDma))
      modifies this, table
      ensures Valid() && Abs() == BlitEnd(old(Abs()), h, usedDma)
    {
      hide Inv, Unref;
      BlitKeeps(Abs(), h, usedDma);
      InvShape(Abs());
      blits := blits[h := blits[h] - 1];
      if usedDma {
        var prev := dma;
        dma := h;
        ghost var t := Abs();
        UnrefFrame(t, prev, t);
        if prev != 0 {
          UnrefLocked(prev);
        } else {
          UnrefNothing(t);
        }
      } else {
        UnrefLocked(h);
      }
    }

    /** vc4_aros_overlay_latch_wait, once the latch has happened. */
    method LatchWait()
      requires Valid() && replaced.None?
      modifies this, table
      ensures Valid() && Abs() == LatchRetire(old(Abs()))
    {
      hide Inv, Unref;
      LatchKeeps(Abs());
      InvShape(Abs());
      if displaced == 0 {
        return;
      }
      ghost var s := Abs();
      UnrefFrame(s, displaced, s);
      UnrefLocked(displaced);
      displaced := 0;
    }

    /** vc4_aros_set_overlay; active is the display driver's answer. */
    method SetOverlay(h: nat, bytes: nat, active: bool) returns (ok: bool)
      requires Valid() && replaced.None?
      modifies this, table
      ensures Valid() && replaced.None?
      ensures var s := LatchRetire(old(Abs()));
              && |s.table| == MAX_BOS
              && ok == (Showable(s, h, bytes) && active)
              && Abs() == if Showable(s, h, bytes) then SetEnd(SetBegin(s, h), active) else s
    {
      hide Inv, Unref, Ref, LatchRetire;
      LatchKeeps(Abs());
      InvShape(Abs());
      LatchFrame(Abs());
      InvShape(LatchRetire(Abs()));
      LatchWait();
      if h >= MAX_BOS || table[h].address == 0 || bytes > table[h].size {
        return false;
      }
      ghost var s := Abs();
      SetBeginKeeps(s, h);
      RefFrame(s, h);
      MappedNotZero(s, h);
      SetEndKeeps(SetBegin(s, h), active);
      AddRef(h);
      var prev := pinned;
      pinned := h;
      replaced := if prev != 0 then Some(prev) else None;
      assert Abs() == SetBegin(s, h);
      FinishSet(h, prev, active);
      ok := active;
    }

    method FinishSet(h: nat, prev: nat, active: bool)
      requires table.Length == MAX_BOS && pinned == h && replaced == if prev != 0 then Some(prev) else None
      modifies this, table
      ensures Abs() == SetEnd(old(Abs()), active) && replaced.None?
    {
      hide Unref;
      replaced := None;
      ghost var t := Abs();
      UnrefFrame(t, h, t);
      if !active {
        UnrefLocked(h);
        pinned := 0;
        if prev != 0 {
          UnrefFrame(Abs(), prev, Abs());
          UnrefLocked(prev);
        }
        return;
      }
      if prev != 0 && prev != h {
        displaced := prev;
      } else if prev != 0 {
        UnrefLocked(prev);
      }
    }

    /** vc4_aros_clear_overlay. */
    method ClearPlane()
      requires Valid() && replaced.None?
      modifies this, table
      ensures Valid() && Abs() == Clear(old(Abs())) && replaced.None?
    {
      hide Inv, Unref;
      ClearKeeps(Abs());
      InvShape(Abs());
      if pinned != 0 {
        UnrefFrame(Abs(), pinned, Abs());
        UnrefLocked(pinned);
        pinned := 0;
      }
      if displaced != 0 {
        UnrefFrame(Abs(), displaced, Abs());
        UnrefLocked(displaced);
        displaced := 0;
      }
    }

    /** pool_bo_get: 0 is the failure; a buffer that is large enough is kept. */
    method PoolBuffer(i: nat, bytes: nat, outcome: Alloc) returns (size: nat)
      requires Valid() && i < POOLS
      modifies this`memBytes, this`pools
      ensures Valid() && Abs() == PoolGet(old(Abs()), i, bytes, outcome) && size == pools[i]
      ensures size >= bytes || outcome.Fails?
    {
      hide Inv, RoundUp;
      PoolKeeps(Abs(), i, bytes, outcome);
      InvShape(Abs());
      if pools[i] >= bytes && pools[i] > 0 {
        return pools[i];
      }
      if pools[i] > 0 {
        memBytes := memBytes - pools[i];
        pools := pools[i := 0];
      }
      if outcome.First? {
        pools := pools[i := RoundUp(bytes + bytes / 4, 4096)];
      } else if outcome.Second? {
        pools := pools[i := RoundUp(bytes, 4096)];
      }
      memBytes := memBytes + pools[i];
      assert pools == old(pools)[i := pools[i]];
      size := pools[i];
    }
  }

  lemma BlankTable(t: seq<Entry>)
    requires |t| == MAX_BOS && forall h :: 0 <= h < MAX_BOS ==> t[h] == FREE
    ensures t == Blank().table && Inv(Blank())
  {
    hide Inv;
    BlankHolds();
    forall h | 0 <= h < MAX_BOS
      ensures t[h] == Blank().table[h]
    {
    }
  }

  /** The driver starts with nothing allocated and nothing held. */
  method Start() returns (b: Bos)
    ensures fresh(b) && b.Valid() && b.Abs() == Blank()
  {
    hide Inv;
    var s := Blank();
    b := new Bos(s.pools, s.clients, s.blits);
    BlankTable(b.table[..]);
  }

  lemma InvShape(s: Store)
    requires Inv(s)
    ensures Shape(s)
  {
  }

  lemma LatchFrame(s: Store)
    requires |s.table| == MAX_BOS
    ensures LatchRetire(s).replaced == s.replaced && |LatchRetire(s).table| == MAX_BOS
  {
  }

  lemma MappedNotZero(s: Store, h: nat)
    requires Inv(s) && h < MAX_BOS && s.table[h].address != 0
    ensures h != 0
  {
    assert EntrySound(s, multiset{}, h);
  }
}
